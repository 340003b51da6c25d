/**
 * The tree as the program keeps it: node objects with two indexes over their children, updated
 * in place while descending. Every method is proved to compute the table function it is named
 * after.
 */
module NsTree {
  import opened Basics
  import opened Names
  import opened NsListing
  import opened NsShape
  import opened NsSnapshot
  import T = NsTable

  type Path = T.Path
  type NsError = T.NsError

  // ---- one step of a descent, on tables ----

  lemma OneLevel(labels: Labels, i: nat)
    requires i < |labels|
    ensures labels[..i + 1] == labels[..i] + [labels[i]]
    ensures labels[i..] != [] && labels[i..][0] == labels[i] && labels[i..][1..] == labels[i + 1..]
    ensures [] + labels[..i] == labels[..i]
  {
  }

  /** The first i levels of the name exist and have this path. */
  predicate Reached(t: T.Table, labels: Labels, i: nat, path: Path)
    requires i <= |labels|
  {
    labels[..i] in t && T.HasName(t, labels[..i]) && path == T.PathOf(t, labels[..i])
  }

  lemma ReachNext(t: T.Table, labels: Labels, i: nat, path: Path)
    requires i < |labels| && Reached(t, labels, i, path) && labels[..i + 1] in t
    ensures Reached(t, labels, i + 1, path + [t[labels[..i + 1]].nid])
  {
    OneLevel(labels, i);
    T.ChildBears(t, labels[..i], labels[i], path);
  }

  lemma ReachInserted(t: T.Table, labels: Labels, i: nat, path: Path, nid: uint32, next: uint32)
    requires i < |labels| && Reached(t, labels, i, path) && labels[..i] + [labels[i]] !in t
    ensures Reached(T.Insert(t, labels[..i], labels[i], nid, next), labels, i + 1, path + [nid])
  {
    var t' := T.Insert(t, labels[..i], labels[i], nid, next);
    OneLevel(labels, i);
    T.ExtendsKeepsPath(t, t', [], labels[..i]);
    ReachNext(t', labels, i, path);
  }

  lemma MissingLevel(t: T.Table, labels: Labels, i: nat)
    requires i < |labels| && labels[..i + 1] !in t
    ensures !T.HasName(t, labels)
  {
    OneLevel(labels, i);
    assert labels == labels[..i] + labels[i..];
    if T.HasName(t, labels) {
      T.PathSplits(t, [], labels[..i], labels[i..]);
    }
  }

  /** The allocation of `labels` in t0 has got i levels down, and the table is now t. */
  ghost predicate Allocating(t0: T.Table, t: T.Table, labels: Labels, i: nat, path: Path)
    requires i <= |labels|
  {
    && [] in t0 && T.WellNumbered(t) && Reached(t, labels, i, path)
    && T.SafeToAllocateFrom(t, labels[..i], labels[i..])
    && T.AllocateFrom(t, labels[..i], labels[i..]) == T.AllocateFrom(t0, [], labels)
  }

  /** The next level of such an allocation gets a number no sibling has. */
  lemma NextIsSafe(t0: T.Table, t: T.Table, labels: Labels, i: nat, path: Path)
    requires i < |labels| && Allocating(t0, t, labels, i, path)
    ensures T.SafeToAllocateFrom(t, labels[..i], [labels[i]])
  {
    OneLevel(labels, i);
    assert [labels[i]][1..] == [];
  }

  lemma AllocateStuck(t0: T.Table, t: T.Table, labels: Labels, i: nat, path: Path)
    requires i < |labels| && Allocating(t0, t, labels, i, path)
    requires T.AllocateFrom(t, labels[..i], [labels[i]]).error.Some?
    ensures T.AllocateFrom(t0, [], labels) == T.AllocateFrom(t, labels[..i], [labels[i]])
  {
    OneLevel(labels, i);
    assert [labels[i]][1..] == [];
  }

  lemma AllocateDone(t0: T.Table, t: T.Table, labels: Labels, path: Path)
    requires Allocating(t0, t, labels, |labels|, path)
    ensures T.AllocateFrom(t0, [], labels) == T.Update(t, None)
  {
    assert labels[|labels|..] == [];
  }

  lemma AllocateNext(t0: T.Table, t: T.Table, labels: Labels, i: nat, path: Path)
    requires i < |labels| <= T.MAX_DEPTH && Allocating(t0, t, labels, i, path)
    requires T.AllocateFrom(t, labels[..i], [labels[i]]).error.None?
    ensures var t' := T.AllocateFrom(t, labels[..i], [labels[i]]).table;
            labels[..i + 1] in t' && Allocating(t0, t', labels, i + 1, path + [t'[labels[..i + 1]].nid])
  {
    OneLevel(labels, i);
    var at, l := labels[..i], labels[i];
    assert [l][1..] == [];
    if at + [l] in t {
      ReachNext(t, labels, i, path);
    } else {
      var nid := t[at].next;
      T.InsertKeepsNumbering(t, at, l, nid, (nid + 1) % TWO32);
      T.NewNodeIsBare(t, at, l, nid, (nid + 1) % TWO32);
      T.BareIsSafe(T.Insert(t, at, l, nid, (nid + 1) % TWO32), at + [l], labels[i + 1..]);
      ReachInserted(t, labels, i, path, nid, (nid + 1) % TWO32);
    }
  }

  /** The graft of `labels` in t0 has got i levels down, and the table is now t. */
  ghost predicate Grafting(t0: T.Table, t: T.Table, labels: Labels, path: Path, i: nat)
    requires i <= |labels| == |path|
  {
    && [] in t0 && labels[..i] in t
    && T.GraftFrom(t, labels[..i], labels[i..], path[i..]) == T.GraftFrom(t0, [], labels, path)
  }

  lemma GraftNext(t0: T.Table, t: T.Table, labels: Labels, path: Path, i: nat)
    requires i < |labels| == |path| && Grafting(t0, t, labels, path, i)
    ensures var u := T.GraftFrom(t, labels[..i], [labels[i]], [path[i]]);
            if u.error.Some? then u == T.GraftFrom(t0, [], labels, path)
            else Grafting(t0, u.table, labels, path, i + 1)
  {
    OneLevel(labels, i);
    assert [labels[i]][1..] == [] && [path[i]][1..] == [];
    assert path[i..][0] == path[i] && path[i..][1..] == path[i + 1..];
  }

  // ---- reading a path backwards ----

  /** The first i identifiers of the path lead to the node of `labels`. */
  predicate Read(t: T.Table, labels: Labels, path: Path, i: nat) {
    i <= |path| && |labels| == i && labels in t && T.Bears(t, labels, path[..i])
  }

  lemma ReadNext(t: T.Table, labels: Labels, path: Path, i: nat, l: string)
    requires Read(t, labels, path, i) && i < |path| && labels + [l] in t && t[labels + [l]].nid == path[i]
    ensures Read(t, labels + [l], path, i + 1)
  {
    assert path[..i + 1] == path[..i] + [path[i]];
    assert (labels + [l])[..i] == labels && (labels + [l])[..i + 1] == labels + [l];
    ReachNext(t, labels + [l], i, path[..i]);
  }

  lemma NobodyHere(t: T.Table, labels: Labels, path: Path, i: nat, other: Labels)
    requires T.WellNumbered(t) && Read(t, labels, path, i) && i < |path|
    requires !T.NidTaken(t, labels, path[i])
    ensures !T.Bears(t, other, path)
  {
    if T.HasName(t, other) && |other| == |path| {
      T.RootPath(t, other, i);
      T.RootChild(t, other, i);
      T.SiblingTakesNid(t, other[..i], other[i]);
      if T.PathOf(t, other[..i]) == path[..i] {
        T.PathsAreUnique(t, [], other[..i], labels);
      }
    }
  }

  // ---- listing one node and going on to its children ----

  /** The descent has come to the node at `at`: what is written of its parent, and the lines so far. */
  ghost predicate Entering(t: T.Table, at: Labels, labels: Labels, path: Path, names: seq<Labels>, out: seq<Line>) {
    && at in t && (at != [] ==> labels == Shown(at[..|at| - 1]) && path == ShownPath(t, at[..|at| - 1]))
    && (at == [] ==> labels == [] && path == [])
    && Collected(t, names, out) && forall q :: Under(t, at, q) ==> q !in names
  }

  /** The line of the node itself is written, and the children in `left` are still to come. */
  ghost predicate Inside(t: T.Table, at: Labels, labels: Labels, path: Path, left: set<string>,
                         was: seq<Labels>, names: seq<Labels>, out: seq<Line>) {
    && at in t && labels == Shown(at) && path == ShownPath(t, at)
    && Collected(t, names, out) && Covers(t, at, left, was, names)
    && (forall l: string :: l in left ==> at + [l] in t)
    && forall q :: Under(t, at, q) ==> q !in was
  }

  lemma EnterNamed(t: T.Table, at: Labels, labels: Labels, path: Path, left: set<string>,
                   names: seq<Labels>, out: seq<Line>)
    requires T.WellNumbered(t) && Named(at) && Entering(t, at, labels, path, names, out)
    requires forall l: string :: l in left <==> at + [l] in t
    ensures var labels', path' := labels + [at[|at| - 1]], path + [t[at].nid];
            Inside(t, at, labels', path', left, names, names + [at], out + [Line(NameOf(labels'), path')])
  {
    assert Under(t, at, at);
    CollectOne(t, names, out, at, Line(NameOf(labels + [at[|at| - 1]]), path + [t[at].nid]));
    CoverStarts(t, at, left, names);
  }

  lemma EnterUnnamed(t: T.Table, at: Labels, labels: Labels, path: Path, left: set<string>,
                     names: seq<Labels>, out: seq<Line>)
    requires T.WellNumbered(t) && !Named(at) && Entering(t, at, labels, path, names, out)
    requires forall l: string :: l in left <==> at + [l] in t
    ensures Inside(t, at, labels, path, left, names, names, out)
  {
    CoverStarts(t, at, left, names);
  }

  lemma EnterChild(t: T.Table, at: Labels, labels: Labels, path: Path, left: set<string>, l: string,
                   was: seq<Labels>, names: seq<Labels>, out: seq<Line>)
    requires Inside(t, at, labels, path, left, was, names, out) && l in left
    ensures Entering(t, at + [l], labels, path, names, out)
  {
    assert (at + [l])[..|at|] == at;
    forall q | Under(t, at + [l], q)
      ensures q !in names
    {
      ChildCovers(t, at, left, l, q);
      assert at <= at + [l] <= q;
    }
  }

  lemma LeaveChild(t: T.Table, at: Labels, labels: Labels, path: Path, left: set<string>, l: string,
                   was: seq<Labels>, names: seq<Labels>, out: seq<Line>, names': seq<Labels>, out': seq<Line>)
    requires Inside(t, at, labels, path, left, was, names, out) && l in left && Collected(t, names', out')
    requires forall q :: q in names' <==> q in names || Under(t, at + [l], q)
    ensures Inside(t, at, labels, path, left - {l}, was, names', out')
  {
    CoverGrows(t, at, left, l, was, names, names');
  }

  class Tree {
    const root: Node
    ghost var shape: Shape
    ghost var repr: set<Node>

    ghost predicate Valid()
      reads this, repr
    {
      WellShaped(shape, []) && shape.nodes[[]] == root && root.name == "" && Held(shape, repr)
    }

    ghost function Table(): T.Table
      reads this
    {
      shape.table
    }

    constructor ()
      ensures Valid() && fresh(repr) && Table() == T.NewTable()
    {
      var top := new Node("", 0, []);
      root := top;
      shape, repr := Leaf(top, [], 1), {top};
      new;
      LeafFits(top, [], 1);
      assert Stored(shape, []);
    }

    constructor Over(root: Node, ghost s: Shape, ghost nodes: set<Node>)
      requires WellShaped(s, []) && s.nodes[[]] == root && root.name == "" && Held(s, nodes)
      ensures Valid() && repr == nodes && Table() == s.table
    {
      this.root, shape, repr := root, s, nodes;
    }

    // ---- allocation ----

    /** Puts a new node under `cur`, which is the node of `at`, and moves the counter. */
    method Attach(cur: Node, name: string, nid: uint32, next: uint32, ghost at: Labels) returns (child: Node)
      requires Valid() && at in shape.nodes && shape.nodes[at] == cur
      requires name !in cur.children && nid !in cur.byNID
      modifies this, cur
      ensures Valid() && forall n :: n in repr ==> n in old(repr) || fresh(n)
      ensures at + [name] in shape.nodes && child == shape.nodes[at + [name]] && child.nid == nid
      ensures Table() == T.Insert(old(Table()), at, name, nid, next)
    {
      ghost var attached: Shape;
      child, attached := NewChild(cur, name, nid, next, shape, at, repr);
      shape, repr := attached, repr + {child};
    }

    /** One level of an allocation: the child there is, or a new one with the next identifier. */
    method AllocateLevel(cur: Node, name: string, ghost at: Labels) returns (r: Result<Node, NsError>)
      requires Valid() && at in shape.nodes && shape.nodes[at] == cur && at in Table()
      requires T.SafeToAllocateFrom(Table(), at, [name])
      modifies this, cur
      ensures Valid() && forall n :: n in repr ==> n in old(repr) || fresh(n)
      ensures T.AllocateFrom(old(Table()), at, [name]) == T.Update(Table(), ErrorOf(r))
      ensures r.Ok? ==> at + [name] in shape.nodes && r.value == shape.nodes[at + [name]]
      ensures r.Ok? ==> r.value.nid == Table()[at + [name]].nid
    {
      assert Stored(shape, at);
      IndexedBelow(shape, [], at);
      assert [name][1..] == [];
      if name in cur.children {
        return Ok(cur.children[name]);
      }
      var nid := cur.nextNID;
      if nid == 0 {
        return Err(T.Exhausted);
      }
      var n := Attach(cur, name, nid, (nid + 1) % TWO32, at);
      return Ok(n);
    }

    /** Allocates below the root; the descent stops where a counter is exhausted. */
    method AllocateLevels(labels: Labels) returns (r: Result<Path, NsError>)
      requires Valid() && T.WellNumbered(Table()) && 0 < |labels| <= T.MAX_DEPTH
      requires T.SafeToAllocateFrom(Table(), [], labels)
      modifies this, repr
      ensures Valid() && forall n :: n in repr ==> n in old(repr) || fresh(n)
      ensures T.AllocateFrom(old(Table()), [], labels) == T.Update(Table(), ErrorOf(r))
      ensures r.Ok? ==> Reached(Table(), labels, |labels|, r.value)
    {
      var cur := root;
      var path: Path := [];
      for i := 0 to |labels|
        invariant Valid() && forall n :: n in repr ==> n in old(repr) || fresh(n)
        invariant Allocating(old(shape.table), shape.table, labels, i, path) && cur == shape.nodes[labels[..i]]
      {
        ghost var at, t := labels[..i], shape.table;
        OneLevel(labels, i);
        assert Stored(shape, at);
        NextIsSafe(old(shape.table), t, labels, i, path);
        var child := AllocateLevel(cur, labels[i], at);
        if child.Err? {
          AllocateStuck(old(shape.table), t, labels, i, path);
          return Err(child.error);
        }
        AllocateNext(old(shape.table), t, labels, i, path);
        cur := child.value;
        path := path + [cur.nid];
      }
      AllocateDone(old(shape.table), shape.table, labels, path);
      return Ok(path);
    }

    /** A counter that has fallen behind may hand out a number that is in use; short of that, any tree will do. */
    method Allocate(fqdn: string) returns (r: Result<Path, NsError>)
      requires Valid() && T.WellNumbered(Table()) && T.SafeToAllocate(Table(), SplitName(fqdn))
      modifies this, repr
      ensures Valid() && forall n :: n in repr ==> n in old(repr) || fresh(n)
      ensures T.Allocate(old(Table()), SplitName(fqdn)) == T.Update(Table(), ErrorOf(r))
      ensures r.Ok? ==> T.Resolve(Table(), SplitName(fqdn)) == r
    {
      var labels := SplitLabels(fqdn);
      if |labels| == 0 {
        return Err(T.Empty);
      }
      if |labels| > T.MAX_DEPTH {
        return Err(T.TooDeep);
      }
      r := AllocateLevels(labels);
      assert labels[..|labels|] == labels;
    }

    // ---- grafting ----

    /** One level of a graft: the child there is must agree, a new one must not clash. */
    method GraftLevel(cur: Node, name: string, nid: uint32, ghost at: Labels) returns (r: Result<Node, NsError>)
      requires Valid() && at in shape.nodes && shape.nodes[at] == cur
      modifies this, cur
      ensures Valid() && forall n :: n in repr ==> n in old(repr) || fresh(n)
      ensures T.GraftFrom(old(Table()), at, [name], [nid]) == T.Update(Table(), ErrorOf(r))
      ensures r.Ok? ==> at + [name] in shape.nodes && r.value == shape.nodes[at + [name]]
    {
      assert Stored(shape, at);
      IndexedBelow(shape, [], at);
      assert [name][1..] == [] && [nid][1..] == [];
      if nid == 0 {
        return Err(T.Malformed);
      }
      if name in cur.children {
        var child := cur.children[name];
        if child.nid != nid {
          return Err(T.Conflict);
        }
        return Ok(child);
      }
      if nid in cur.byNID {
        return Err(T.Conflict);
      }
      var n := Attach(cur, name, nid, if nid >= cur.nextNID then (nid + 1) % TWO32 else cur.nextNID, at);
      return Ok(n);
    }

    method GraftLevels(labels: Labels, path: Path) returns (r: Option<NsError>)
      requires Valid() && |labels| == |path|
      modifies this, repr
      ensures Valid() && forall n :: n in repr ==> n in old(repr) || fresh(n)
      ensures T.GraftFrom(old(Table()), [], labels, path) == T.Update(Table(), r)
    {
      var cur := root;
      for i := 0 to |labels|
        invariant Valid() && forall n :: n in repr ==> n in old(repr) || fresh(n)
        invariant Grafting(old(shape.table), shape.table, labels, path, i) && cur == shape.nodes[labels[..i]]
      {
        OneLevel(labels, i);
        assert Stored(shape, labels[..i]);
        GraftNext(old(shape.table), shape.table, labels, path, i);
        var child := GraftLevel(cur, labels[i], path[i], labels[..i]);
        if child.Err? {
          return Some(child.error);
        }
        cur := child.value;
      }
      assert labels[|labels|..] == [];
      return None;
    }

    /** A refusal below the first level leaves the levels above it in place. */
    method Graft(fqdn: string, path: Path) returns (r: Option<NsError>)
      requires Valid()
      modifies this, repr
      ensures Valid() && forall n :: n in repr ==> n in old(repr) || fresh(n)
      ensures T.Graft(old(Table()), SplitName(fqdn), path) == T.Update(Table(), r)
    {
      var labels := SplitLabels(fqdn);
      if |labels| == 0 {
        return Some(T.Empty);
      }
      if |labels| != |path| {
        return Some(T.Malformed);
      }
      if |labels| > T.MAX_DEPTH {
        return Some(T.TooDeep);
      }
      r := GraftLevels(labels, path);
    }

    // ---- removal ----

    method Cut(cur: Node, name: string, ghost at: Labels)
      requires Valid() && at in shape.nodes && shape.nodes[at] == cur && name in cur.children
      modifies this, cur
      ensures Valid() && repr == old(repr) && Table() == T.Prune(old(Table()), at + [name])
    {
      ghost var pruned := Unlink(cur, name, shape, at, repr);
      shape := pruned;
    }

    method Forget(fqdn: string) returns (r: Option<NsError>)
      requires Valid()
      modifies this, repr
      ensures Valid() && repr == old(repr)
      ensures T.Forget(old(Table()), SplitName(fqdn)) == T.Update(Table(), r)
    {
      var labels := SplitLabels(fqdn);
      if |labels| == 0 {
        return Some(T.Empty);
      }
      var last := |labels| - 1;
      var cur := root;
      ghost var path: Path := [];
      for i := 0 to last
        invariant Valid() && shape == old(shape) && repr == old(repr)
        invariant Reached(shape.table, labels, i, path) && labels[..i] in shape.nodes && cur == shape.nodes[labels[..i]]
      {
        OneLevel(labels, i);
        assert Stored(shape, labels[..i]);
        IndexedBelow(shape, [], labels[..i]);
        if labels[i] !in cur.children {
          MissingLevel(shape.table, labels, i);
          return Some(T.NotAllocated);
        }
        ReachNext(shape.table, labels, i, path);
        cur := cur.children[labels[i]];
        path := path + [cur.nid];
      }
      OneLevel(labels, last);
      assert Stored(shape, labels[..last]);
      IndexedBelow(shape, [], labels[..last]);
      assert labels[..last + 1] == labels;
      if labels[last] !in cur.children {
        MissingLevel(shape.table, labels, last);
        return Some(T.NotAllocated);
      }
      ReachNext(shape.table, labels, last, path);
      Cut(cur, labels[last], labels[..last]);
      return None;
    }

    // ---- reading ----

    method Resolve(fqdn: string) returns (r: Result<Path, NsError>)
      requires Valid()
      ensures r == T.Resolve(Table(), SplitName(fqdn))
    {
      var labels := SplitLabels(fqdn);
      if |labels| == 0 {
        return Err(T.Empty);
      }
      var cur := root;
      var path: Path := [];
      for i := 0 to |labels|
        invariant Reached(shape.table, labels, i, path) && labels[..i] in shape.nodes && cur == shape.nodes[labels[..i]]
      {
        OneLevel(labels, i);
        assert Stored(shape, labels[..i]);
        IndexedBelow(shape, [], labels[..i]);
        if labels[i] !in cur.children {
          MissingLevel(shape.table, labels, i);
          return Err(T.NotAllocated);
        }
        ReachNext(shape.table, labels, i, path);
        cur := cur.children[labels[i]];
        path := path + [cur.nid];
      }
      assert labels[..|labels|] == labels;
      return Ok(path);
    }

    /** The name that bears this path, which is unique; or there is none. */
    method Reverse(path: Path) returns (r: Result<string, NsError>)
      requires Valid() && T.WellNumbered(Table())
      ensures path == [] ==> r == Err(T.Empty)
      ensures r.Ok? ==> exists labels :: T.Bears(Table(), labels, path) && r.value == NameOf(labels)
      ensures r.Err? && path != [] ==> r.error == T.NotAllocated && forall labels :: !T.Bears(Table(), labels, path)
    {
      if |path| == 0 {
        return Err(T.Empty);
      }
      var cur := root;
      var labels: Labels := [];
      for i := 0 to |path|
        invariant Read(shape.table, labels, path, i) && labels in shape.nodes && cur == shape.nodes[labels]
      {
        assert Stored(shape, labels);
        IndexedBelow(shape, [], labels);
        if path[i] !in cur.byNID {
          forall other
            ensures !T.Bears(shape.table, other, path)
          {
            NobodyHere(shape.table, labels, path, i, other);
          }
          return Err(T.NotAllocated);
        }
        var child := cur.byNID[path[i]];
        IndexedBy(shape, [], labels, path[i]);
        ReadNext(shape.table, labels, path, i, child.name);
        labels := labels + [child.name];
        cur := child;
      }
      assert path[..|path|] == path;
      assert T.Bears(shape.table, labels, path);
      var written := ReverseInPlace(labels);
      assert Join(written) == NameOf(labels);
      return Ok(Join(written));
    }

    // ---- the published listing ----

    /** Writes the line of one node; a node without a label has none. */
    method WriteLine(n: Node, labels: Labels, path: Path, out: seq<Line>, ghost at: Labels, ghost names: seq<Labels>)
        returns (labels': Labels, path': Path, out': seq<Line>, ghost names': seq<Labels>)
      requires Valid() && T.WellNumbered(Table()) && at in shape.nodes && shape.nodes[at] == n
      requires Entering(Table(), at, labels, path, names, out)
      ensures Inside(Table(), at, labels', path', n.children.Keys, names, names', out')
    {
      assert Stored(shape, at);
      IndexedBelow(shape, [], at);
      NameIsLabel(n, at);
      labels', path', out', names' := labels, path, out, names;
      if n.name != "" {
        EnterNamed(shape.table, at, labels, path, n.children.Keys, names, out);
        labels', path' := labels + [n.name], path + [n.nid];
        out', names' := out + [Line(NameOf(labels'), path')], names + [at];
      } else {
        EnterUnnamed(shape.table, at, labels, path, n.children.Keys, names, out);
      }
    }

    lemma NameIsLabel(n: Node, at: Labels)
      requires Valid() && at in shape.nodes && shape.nodes[at] == n
      ensures Named(at) <==> n.name != ""
      ensures at != [] ==> at[|at| - 1] == n.name
    {
      if at != [] {
        NodeNames(shape, [], at);
      }
    }

    /** Goes down to one child and comes back with its lines. */
    method DescendChild(n: Node, l: string, labels: Labels, path: Path, out: seq<Line>, ghost at: Labels,
                        ghost left: set<string>, ghost was: seq<Labels>, ghost names: seq<Labels>)
        returns (all: seq<Line>, ghost allNames: seq<Labels>)
      requires Valid() && T.WellNumbered(Table()) && at in shape.nodes && shape.nodes[at] == n
      requires Inside(Table(), at, labels, path, left, was, names, out) && l in left && l in n.children
      ensures Inside(Table(), at, labels, path, left - {l}, was, allNames, all)
      decreases T.MAX_DEPTH - |at|, 0
    {
      assert Stored(shape, at);
      IndexedBelow(shape, [], at);
      EnterChild(shape.table, at, labels, path, left, l, was, names, out);
      assert |at + [l]| <= T.MAX_DEPTH;
      all, allNames := Descend(n.children[l], labels, path, out, at + [l], names);
      LeaveChild(shape.table, at, labels, path, left, l, was, names, out, allNames, all);
    }

    /** Adds the lines of the subtree at `at`, whatever order the children come in. */
    method Descend(n: Node, labels: Labels, path: Path, out: seq<Line>, ghost at: Labels, ghost names: seq<Labels>)
        returns (all: seq<Line>, ghost allNames: seq<Labels>)
      requires Valid() && T.WellNumbered(Table()) && at in shape.nodes && shape.nodes[at] == n
      requires Entering(Table(), at, labels, path, names, out)
      ensures Collected(Table(), allNames, all) && forall q :: q in allNames <==> q in names || Under(Table(), at, q)
      decreases T.MAX_DEPTH - |at|, 2
    {
      var labels', path';
      labels', path', all, allNames := WriteLine(n, labels, path, out, at, names);
      all, allNames := DescendChildren(n, labels', path', all, at, names, allNames);
    }

    /** The loop over the children of one node. */
    method DescendChildren(n: Node, labels: Labels, path: Path, out: seq<Line>, ghost at: Labels,
                           ghost was: seq<Labels>, ghost names: seq<Labels>)
        returns (all: seq<Line>, ghost allNames: seq<Labels>)
      requires Valid() && T.WellNumbered(Table()) && at in shape.nodes && shape.nodes[at] == n
      requires Inside(Table(), at, labels, path, n.children.Keys, was, names, out)
      ensures Inside(Table(), at, labels, path, {}, was, allNames, all)
      decreases T.MAX_DEPTH - |at|, 1
    {
      all, allNames := out, names;
      var left := n.children.Keys;
      while left != {}
        invariant left <= n.children.Keys
        invariant Inside(shape.table, at, labels, path, left, was, allNames, all)
        decreases |left|
      {
        var l :| l in left;
        all, allNames := DescendChild(n, l, labels, path, all, at, left, was, allNames);
        left := left - {l};
      }
    }

    /**
     * Every allocated name with its path, in the order of the names; where every label is well
     * formed, no two names are written the same and the list is the only one of its kind.
     */
    method Walk() returns (out: seq<Line>)
      requires Valid() && T.WellNumbered(Table())
      ensures IsWalk(Table(), out) && (WellNamed(Table()) ==> IsListing(Table(), out))
    {
      var lines: seq<Line>;
      ghost var names: seq<Labels>;
      lines, names := Descend(root, [], [], [], [], []);
      out := SortByName(lines);
      assert Permuted(shape.table, names, lines, out);
      if WellNamed(shape.table) {
        CollectedNamesDiffer(shape.table, names, lines);
        CollectionIsListing(shape.table, names, lines, out);
      }
    }

    // ---- snapshots ----

    method PackNode(n: Node, ghost at: Labels) returns (s: SnapNode)
      requires Valid() && T.WellNumbered(Table()) && at in shape.nodes && shape.nodes[at] == n
      ensures s == Pack(Table(), at)
      decreases T.MAX_DEPTH - |at|
    {
      assert Stored(shape, at);
      IndexedBelow(shape, [], at);
      var kids: map<string, SnapNode> := map[];
      var left := n.children.Keys;
      while left != {}
        invariant left <= n.children.Keys && PackedBut(shape.table, at, left, kids)
        decreases |left|
      {
        var l :| l in left;
        assert |at + [l]| <= T.MAX_DEPTH;
        var kid := PackNode(n.children[l], at + [l]);
        kids := kids[l := kid];
        left := left - {l};
      }
      PackedAll(shape.table, at, kids);
      return SnapNode(n.nid, n.nextNID, kids);
    }

    /** The whole tree, counters included. */
    method Snapshot() returns (s: SnapNode)
      requires Valid() && T.WellNumbered(Table())
      ensures s == Pack(Table(), [])
    {
      s := PackNode(root, []);
    }
  }
}
