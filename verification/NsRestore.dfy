/** Rebuilding a tree from a snapshot, refusing every file that is not consistent. */
module NsRestore {
  import opened Basics
  import opened Names
  import opened NsShape
  import opened NsSnapshot
  import opened NsTree
  import T = NsTable

  /** The table holds the node of s at `at`, and below it what is under the children not in `left`. */
  ghost predicate RestoredBut(s: SnapNode, at: Labels, left: set<string>, t: T.Table) {
    && (forall p :: p in t <==> Rebuilt(s, at, left, p))
    && (forall p :: p in t ==> t[p] == RestoredSlot(NodeAt(s, p[|at|..])))
  }

  predicate Rebuilt(s: SnapNode, at: Labels, left: set<string>, p: Labels) {
    at <= p && InSnap(s, p[|at|..]) && (p == at || p[|at|] !in left)
  }

  lemma RestoredLeaf(s: SnapNode, at: Labels, n: Node)
    requires n.nid == s.nid
    ensures RestoredBut(s, at, s.children.Keys, Leaf(n, at, FixedCounter(s.next)).table)
  {
    forall p
      ensures Rebuilt(s, at, s.children.Keys, p) <==> p == at
    {
      if at <= p && p != at {
        assert p[|at|..][0] == p[|at|];
      }
    }
    assert at[|at|..] == [];
  }

  lemma RebuiltChild(s: SnapNode, at: Labels, left: set<string>, l: string, p: Labels)
    requires l in left && l in s.children
    ensures Rebuilt(s, at, left - {l}, p) <==> Rebuilt(s, at, left, p) || Rebuilt(s.children[l], at + [l], {}, p)
    ensures Rebuilt(s.children[l], at + [l], {}, p) ==>
              !Rebuilt(s, at, left, p) && InSnap(s, p[|at|..])
              && NodeAt(s.children[l], p[|at| + 1..]) == NodeAt(s, p[|at|..])
  {
    if at <= p && p != at {
      var q := p[|at|..];
      assert q[0] == p[|at|] && q[1..] == p[|at| + 1..];
      assert at + [l] <= p <==> p[|at|] == l by {
        assert p[..|at| + 1] == at + [p[|at|]];
      }
    }
    if at + [l] <= p {
      assert at == (at + [l])[..|at|] == p[..|at|];
      assert |p| >= |at| + 1;
    }
  }

  lemma RestoredLink(s: SnapNode, at: Labels, left: set<string>, l: string, t: T.Table, c: T.Table)
    requires l in left && l in s.children && RestoredBut(s, at, left, t) && RestoredBut(s.children[l], at + [l], {}, c)
    ensures RestoredBut(s, at, left - {l}, t + c)
  {
    forall p
      ensures p in t + c <==> Rebuilt(s, at, left - {l}, p)
      ensures p in t + c ==> (t + c)[p] == RestoredSlot(NodeAt(s, p[|at|..]))
    {
      RebuiltChild(s, at, left, l, p);
    }
  }

  // ---- the checks made so far ----

  /** The checks passed for every child not in `left`. */
  ghost predicate AcceptedBut(s: SnapNode, depth: nat, left: set<string>) {
    && depth <= T.MAX_DEPTH
    && (forall l :: l in s.children && l !in left ==>
          Accepts(s.children[l], depth + 1) && 0 < s.children[l].nid < FixedCounter(s.next))
    && (forall l, l' :: l in s.children && l' in s.children && l !in left && l' !in left ==>
          s.children[l].nid == s.children[l'].nid ==> l == l')
  }

  lemma AllAccepted(s: SnapNode, depth: nat)
    requires AcceptedBut(s, depth, {})
    ensures Accepts(s, depth)
  {
  }

  lemma DuplicateIsRefused(s: SnapNode, depth: nat, at: Labels, left: set<string>, sh: Shape, l: string)
    requires WellShaped(sh, at) && RestoredBut(s, at, left, sh.table) && l in left && l in s.children
    requires s.children[l].nid in sh.indices[at].byNID
    ensures !Accepts(s, depth)
  {
    IndexedBy(sh, at, at, s.children[l].nid);
    var l' := sh.indices[at].byNID[s.children[l].nid].name;
    ChildSlot(s, at, left, sh.table, l');
    assert !NidsAccepted(s);
  }

  lemma ChildSlot(s: SnapNode, at: Labels, left: set<string>, t: T.Table, l: string)
    requires RestoredBut(s, at, left, t) && at + [l] in t
    ensures l in s.children && l !in left && t[at + [l]].nid == s.children[l].nid
  {
    var p := at + [l];
    assert p[|at|..] == [l] && [l][1..] == [] && p[|at|] == l && p != at;
    assert InSnap(s, [l]) && NodeAt(s, [l]) == NodeAt(s.children[l], []);
  }

  lemma FreshIsAccepted(s: SnapNode, depth: nat, at: Labels, left: set<string>, sh: Shape, l: string)
    requires WellShaped(sh, at) && RestoredBut(s, at, left, sh.table) && l in left && l in s.children
    requires AcceptedBut(s, depth, left) && Accepts(s.children[l], depth + 1)
    requires 0 < s.children[l].nid < FixedCounter(s.next) && s.children[l].nid !in sh.indices[at].byNID
    ensures AcceptedBut(s, depth, left - {l}) && l !in sh.indices[at].children
  {
    IndexedBelow(sh, at, at);
    forall m | m in s.children && m !in left
      ensures s.children[m].nid != s.children[l].nid
    {
      var p := at + [m];
      assert p[|at|..] == [m] && [m][1..] == [] && p[|at|] == m;
      assert InSnap(s, [m]) && Rebuilt(s, at, left, p);
      ChildSlot(s, at, left, sh.table, m);
      T.SiblingTakesNid(sh.table, at, m);
    }
    if at + [l] in sh.table {
      ChildSlot(s, at, left, sh.table, l);
    }
  }

  /** The node n stands for s, with the children not in `left` already below it. */
  ghost predicate Built(n: Node, s: SnapNode, depth: nat, at: Labels, left: set<string>, sh: Shape, repr: set<Node>)
    reads repr
  {
    && WellShaped(sh, at) && Held(sh, repr) && sh.nodes[at] == n && n in repr
    && RestoredBut(s, at, left, sh.table) && AcceptedBut(s, depth, left)
  }

  /** Checks the identifier of a finished child against the node, and puts the child below it. */
  method AddChild(n: Node, l: string, c: Node,
                  ghost s: SnapNode, ghost depth: nat, ghost at: Labels, ghost left: set<string>,
                  ghost sh: Shape, ghost repr: set<Node>, ghost csh: Shape, ghost below: set<Node>)
      returns (ok: bool, ghost sh': Shape)
    requires Built(n, s, depth, at, left, sh, repr) && l in left && l in s.children && n !in below
    requires Accepts(s.children[l], depth + 1) && c.name == l && c.nid == s.children[l].nid
    requires WellShaped(csh, at + [l]) && Held(csh, below) && csh.nodes[at + [l]] == c
    requires RestoredBut(s.children[l], at + [l], {}, csh.table)
    modifies n
    ensures !ok ==> !Accepts(s, depth)
    ensures ok ==> Built(n, s, depth, at, left - {l}, sh', repr + below)
  {
    sh' := sh;
    assert Stored(sh, at);
    assert sh.table[at].next == FixedCounter(s.next) by {
      assert at[|at|..] == [] && NodeAt(s, []) == s;
    }
    if c.nid == 0 {
      return false, sh;
    }
    if c.nid in n.byNID {
      DuplicateIsRefused(s, depth, at, left, sh, l);
      return false, sh;
    }
    if c.nid >= n.nextNID {
      return false, sh;
    }
    FreshIsAccepted(s, depth, at, left, sh, l);
    RestoredLink(s, at, left, l, sh.table, csh.table);
    LinkedHere(sh, at, at, l, csh);
    Link(n, l, c, sh, at, at, csh, repr, below);
    return true, Linked(sh, at, l, csh);
  }

  method NewNode(name: string, s: SnapNode, depth: nat, ghost at: Labels)
      returns (n: Node, ghost sh: Shape)
    requires depth <= T.MAX_DEPTH
    ensures fresh(n) && n.name == name && n.nid == s.nid && Built(n, s, depth, at, s.children.Keys, sh, {n})
  {
    n := new Node(name, s.nid, at);
    if s.next > 0 {
      n.nextNID := s.next;
    }
    sh := Leaf(n, at, FixedCounter(s.next));
    LeafFits(n, at, FixedCounter(s.next));
    RestoredLeaf(s, at, n);
    assert Stored(sh, at);
  }

  /** Builds one child of a node and puts it below the node. */
  method UnpackChild(n: Node, l: string, ghost s: SnapNode, c: SnapNode, depth: nat, ghost at: Labels,
                     ghost left: set<string>, ghost sh: Shape, ghost repr: set<Node>)
      returns (ok: bool, ghost sh': Shape, ghost repr': set<Node>)
    requires Built(n, s, depth, at, left, sh, repr) && l in left && l in s.children && c == s.children[l]
    modifies n
    ensures !ok ==> !Accepts(s, depth)
    ensures ok ==> Built(n, s, depth, at, left - {l}, sh', repr')
    ensures forall m :: m in repr' ==> m in repr || fresh(m)
    decreases c, 2
  {
    var child;
    ghost var csh, below;
    child, csh, below := Unpack(l, c, depth + 1, at + [l]);
    if child.None? {
      return false, sh, repr;
    }
    ok, sh' := AddChild(n, l, child.value, s, depth, at, left, sh, repr, csh, below);
    repr' := repr + below;
  }

  /** Builds all children of a node, in any order, up to the first that fails a check. */
  method UnpackChildren(n: Node, s: SnapNode, depth: nat, ghost at: Labels, ghost sh0: Shape)
      returns (ok: bool, ghost sh: Shape, ghost repr: set<Node>)
    requires Built(n, s, depth, at, s.children.Keys, sh0, {n})
    modifies n
    ensures ok <==> Accepts(s, depth)
    ensures ok ==> Built(n, s, depth, at, {}, sh, repr)
    ensures forall m :: m in repr ==> m == n || fresh(m)
    decreases s, 0
  {
    ok, sh, repr := true, sh0, {n};
    var left := s.children.Keys;
    while left != {}
      invariant left <= s.children.Keys && forall m :: m in repr ==> m == n || fresh(m)
      invariant Built(n, s, depth, at, left, sh, repr)
      decreases |left|
    {
      var l :| l in left;
      ok, sh, repr := UnpackChild(n, l, s, s.children[l], depth, at, left, sh, repr);
      if !ok {
        return false, sh, {};
      }
      left := left - {l};
    }
    AllAccepted(s, depth);
    return true, sh, repr;
  }

  /** Builds the subtree of one snapshot node; None when a check fails anywhere in it. */
  method Unpack(name: string, s: SnapNode, depth: nat, ghost at: Labels)
      returns (r: Option<Node>, ghost sh: Shape, ghost repr: set<Node>)
    ensures r.Some? <==> Accepts(s, depth)
    ensures r.Some? ==> r.value.name == name && r.value.nid == s.nid && Built(r.value, s, depth, at, {}, sh, repr)
    ensures forall m :: m in repr ==> fresh(m)
    decreases s, 1
  {
    if depth > T.MAX_DEPTH {
      return None, Shape(map[], map[], map[]), {};
    }
    var n, ok;
    n, sh := NewNode(name, s, depth, at);
    ok, sh, repr := UnpackChildren(n, s, depth, at, sh);
    return if ok then Some(n) else None, sh, if ok then repr else {};
  }

  /**
   * Restores a tree, exactly when the snapshot is consistent in every node; the tree then
   * satisfies the whole invariant and holds what the snapshot says.
   */
  method Restore(s: SnapNode) returns (r: Option<Tree>)
    ensures r.Some? <==> Accepts(s, 0)
    ensures r.Some? ==> fresh(r.value) && fresh(r.value.repr) && r.value.Valid()
    ensures r.Some? ==> RestoresTo(s, r.value.Table()) && T.TableInv(r.value.Table()) && T.NoWrap(r.value.Table())
  {
    var root;
    ghost var sh, repr;
    root, sh, repr := Unpack("", s, 0, []);
    if root.None? {
      return None;
    }
    assert RestoresTo(s, sh.table) by {
      forall p
        ensures Rebuilt(s, [], {}, p) <==> InSnap(s, p)
      {
        assert p[0..] == p;
      }
    }
    AcceptedIsSound(s, sh.table);
    var t := new Tree.Over(root.value, sh, repr);
    return Some(t);
  }

  // ---- labels that no name is split into ----

  /** A snapshot with a label that has a dot in it, beside the two labels it is written like. */
  function Ambiguous(l: string, m: string): SnapNode {
    var leaf, branch := SnapNode(1, 1, map[]), SnapNode(2, 2, map[l := SnapNode(1, 1, map[])]);
    SnapNode(0, 3, map[l + "." + m := leaf, m := branch])
  }

  lemma AmbiguousIsAccepted(l: string, m: string)
    ensures Accepts(Ambiguous(l, m), 0)
  {
    var s, x := Ambiguous(l, m), l + "." + m;
    assert |x| > |m|;
    assert s.children[x] == SnapNode(1, 1, map[]) && s.children[m].children[l] == SnapNode(1, 1, map[]);
    assert Accepts(s.children[x], 1) && Accepts(s.children[m].children[l], 2) && Accepts(s.children[m], 1);
  }

  lemma AmbiguousText(l: string, m: string)
    ensures NameOf([l + "." + m]) == NameOf([m, l])
  {
    var x := l + "." + m;
    assert [x][1..] == [] && [m, l][1..] == [l] && [l][1..] == [] && [l, m][1..] == [m];
    ReverseAppend([m], [l]);
    assert [m] + [l] == [m, l] && Reverse([l]) == [l] && Reverse([m]) == [m] && Reverse([x]) == [x];
    assert Join([l, m]) == l + "." + Join([m]) == x;
  }

  /** Restore does not look at the labels: it accepts trees in which two names are written the same. */
  lemma DottedLabelIsAccepted(l: string, m: string)
    ensures Accepts(Ambiguous(l, m), 0)
    ensures InSnap(Ambiguous(l, m), [l + "." + m]) && InSnap(Ambiguous(l, m), [m, l])
    ensures [l + "." + m] != [m, l] && NameOf([l + "." + m]) == NameOf([m, l])
  {
    var s, x := Ambiguous(l, m), l + "." + m;
    AmbiguousIsAccepted(l, m);
    AmbiguousText(l, m);
    assert |x| > |m|;
    assert [x][1..] == [] && [m, l][1..] == [l] && [l][1..] == [];
    assert InSnap(s.children[m], [l]);
  }
}
