/** Grafting: accepting identifiers chosen elsewhere, and replicating a whole table that way. */
module NsGraft {
  import opened Basics
  import opened NsTable

  lemma RaisedIsAbove(next: uint32, nid: uint32)
    requires next != 0
    ensures nid < Bound(RaisedCounter(next, nid)) && Bound(next) <= Bound(RaisedCounter(next, nid))
  {
  }

  /**
   * Whatever the counters are, a graft keeps every earlier assignment and adds only levels of
   * the name, and on success the name has exactly the demanded path.
   */
  lemma {:induction false} GraftExtends(t: Table, at: Labels, rest: Labels, path: Path)
    requires at in t && |rest| == |path|
    ensures var u := GraftFrom(t, at, rest, path);
            && (u.error.None? ==> Live(u.table, at, rest) && PathFrom(u.table, at, rest) == path)
            && Extends(t, u.table) && AddsOnly(t, u.table, at + rest)
    decreases |rest|
  {
    if rest != [] && path[0] != 0 {
      Regroup(at, rest);
      var at' := at + [rest[0]];
      assert path == [path[0]] + path[1..];
      assert at' <= at + rest;
      if at' in t {
        GraftExtends(t, at', rest[1..], path[1..]);
      } else if !NidTaken(t, at, path[0]) {
        GraftExtends(Insert(t, at, rest[0], path[0], RaisedCounter(t[at].next, path[0])), at', rest[1..], path[1..]);
      }
    }
  }

  /** A graft checks its siblings, so it keeps them apart whatever the counters are. */
  lemma {:induction false} GraftKeepsNumbering(t: Table, at: Labels, rest: Labels, path: Path)
    requires WellNumbered(t) && at in t && |rest| == |path| && |at + rest| <= MAX_DEPTH
    ensures WellNumbered(GraftFrom(t, at, rest, path).table)
    decreases |rest|
  {
    if rest != [] && path[0] != 0 {
      Regroup(at, rest);
      var at' := at + [rest[0]];
      if at' in t {
        GraftKeepsNumbering(t, at', rest[1..], path[1..]);
      } else if !NidTaken(t, at, path[0]) {
        InsertKeepsNumbering(t, at, rest[0], path[0], RaisedCounter(t[at].next, path[0]));
        GraftKeepsNumbering(Insert(t, at, rest[0], path[0], RaisedCounter(t[at].next, path[0])), at', rest[1..], path[1..]);
      }
    }
  }

  /** A graft touches nothing outside the branch it works in. */
  lemma {:induction false} GraftLeavesOthers(t: Table, at: Labels, rest: Labels, path: Path, p: Labels)
    requires at in t && |rest| == |path| && p in t && !(at <= p)
    ensures p in GraftFrom(t, at, rest, path).table && GraftFrom(t, at, rest, path).table[p] == t[p]
    decreases |rest|
  {
    if rest != [] && path[0] != 0 {
      var at' := at + [rest[0]];
      assert at <= at';
      assert !(at' <= p);
      if at' in t {
        GraftLeavesOthers(t, at', rest[1..], path[1..], p);
      } else if !NidTaken(t, at, path[0]) {
        var t' := Insert(t, at, rest[0], path[0], RaisedCounter(t[at].next, path[0]));
        GraftLeavesOthers(t', at', rest[1..], path[1..], p);
      }
    }
  }

  /**
   * Following the levels that exist and agree, the graft creates no level, or it creates its
   * first one under a counter that has not wrapped, or with an identifier above those of all
   * the children there.
   */
  ghost predicate GraftSafe(t: Table, at: Labels, rest: Labels, path: Path)
    requires at in t && |rest| == |path|
    decreases |rest|
  {
    if rest == [] || path[0] == 0 then true
    else if at + [rest[0]] in t then
      t[at + [rest[0]]].nid != path[0] || GraftSafe(t, at + [rest[0]], rest[1..], path[1..])
    else
      NidTaken(t, at, path[0]) || t[at].next != 0 || ChildrenBelow(t, at, path[0])
  }

  lemma NewLevelSafe(t: Table, at: Labels, l: Label, nid: uint32)
    requires TableInv(t) && at in t && at + [l] !in t && |at| < MAX_DEPTH && nid != 0 && !NidTaken(t, at, nid)
    requires t[at].next != 0 || ChildrenBelow(t, at, nid)
    ensures TableInv(Insert(t, at, l, nid, RaisedCounter(t[at].next, nid)))
  {
    var next := RaisedCounter(t[at].next, nid);
    if t[at].next != 0 {
      RaisedIsAbove(t[at].next, nid);
    }
    assert nid < Bound(next);
    assert ChildrenBelow(t, at, Bound(next));
    InsertKeepsInv(t, at, l, nid, next);
  }

  /** A counter below a child stays there while the graft goes on in another branch. */
  lemma LoweredStays(t: Table, at: Labels, l: Label, below: Labels, rest: Labels, path: Path)
    requires at in t && at + [l] in t && t[at + [l]].nid >= Bound(t[at].next)
    requires below in t && |rest| == |path| && !(below <= at) && !(below <= at + [l])
    ensures !TableInv(GraftFrom(t, below, rest, path).table)
  {
    GraftLeavesOthers(t, below, rest, path, at);
    GraftLeavesOthers(t, below, rest, path, at + [l]);
  }

  lemma LowersCounter(t: Table, at: Labels, newest: Label, nid: uint32) returns (l: Label)
    requires at in t && at + [newest] !in t && t[at].next == 0 && !ChildrenBelow(t, at, nid)
    requires !NidTaken(t, at, nid)
    ensures var t' := Insert(t, at, newest, nid, RaisedCounter(0, nid));
            at + [l] in t' && l != newest && t'[at + [l]].nid >= Bound(t'[at].next)
  {
    l :| at + [l] in t && t[at + [l]].nid >= nid;
    SiblingTakesNid(t, at, l);
    AppendInjective(at, l, at, newest);
    assert at != at + [newest] by {
      assert |at + [newest]| == |at| + 1;
    }
  }

  lemma SiblingsApart(at: Labels, l: Label, m: Label)
    ensures !(at + [l] <= at) && (at + [l] <= at + [m] <==> l == m)
  {
    if at + [l] <= at + [m] {
      assert at + [l] == at + [m];
      AppendInjective(at, l, at, m);
    }
  }

  lemma NewLevelUnsafe(t: Table, at: Labels, rest: Labels, path: Path)
    requires TableInv(t) && at in t && |rest| == |path| && rest != [] && at + [rest[0]] !in t && path[0] != 0
    requires !NidTaken(t, at, path[0]) && t[at].next == 0 && !ChildrenBelow(t, at, path[0])
    ensures !TableInv(GraftFrom(t, at, rest, path).table)
  {
    var l := LowersCounter(t, at, rest[0], path[0]);
    var at' := at + [rest[0]];
    SiblingsApart(at, rest[0], l);
    LoweredStays(Insert(t, at, rest[0], path[0], RaisedCounter(0, path[0])), at, l, at', rest[1..], path[1..]);
  }

  lemma {:induction false} GraftFromKeepsInvIff(t: Table, at: Labels, rest: Labels, path: Path)
    requires TableInv(t) && at in t && |at + rest| <= MAX_DEPTH && |rest| == |path|
    ensures TableInv(GraftFrom(t, at, rest, path).table) <==> GraftSafe(t, at, rest, path)
    decreases |rest|
  {
    if rest != [] && path[0] != 0 {
      Regroup(at, rest);
      var at' := at + [rest[0]];
      if at' in t {
        GraftFromKeepsInvIff(t, at', rest[1..], path[1..]);
      } else if !NidTaken(t, at, path[0]) {
        if t[at].next != 0 || ChildrenBelow(t, at, path[0]) {
          NewLevelSafe(t, at, rest[0], path[0]);
          NothingBelow(t, at');
          var t' := Insert(t, at, rest[0], path[0], RaisedCounter(t[at].next, path[0]));
          FreshIsSafe(t', at', rest[1..], path[1..]);
          GraftFromKeepsInvIff(t', at', rest[1..], path[1..]);
        } else {
          NewLevelUnsafe(t, at, rest, path);
        }
      }
    }
  }

  lemma FreshIsSafe(t: Table, at: Labels, rest: Labels, path: Path)
    requires at in t && |rest| == |path| && t[at].next == 1 && forall p :: p in t && at <= p ==> p == at
    ensures GraftSafe(t, at, rest, path)
  {
    if rest != [] {
      assert at <= at + [rest[0]];
    }
  }

  /** What a caller can check before a graft. */
  ghost predicate SafeToGraft(t: Table, name: Labels, path: Path)
    requires [] in t
  {
    0 < |name| == |path| <= MAX_DEPTH ==> GraftSafe(t, [], name, path)
  }

  lemma {:induction false} NoWrapIsSafe(t: Table, at: Labels, rest: Labels, path: Path)
    requires NoWrap(t) && at in t && |rest| == |path|
    ensures GraftSafe(t, at, rest, path)
    decreases |rest|
  {
    if rest != [] && at + [rest[0]] in t {
      NoWrapIsSafe(t, at + [rest[0]], rest[1..], path[1..]);
    }
  }

  /**
   * A graft keeps all assignments and keeps siblings apart, adds only levels of the name and on
   * success gives it the demanded path. It keeps every counter ahead exactly when it is safe; a
   * tree in which no counter has wrapped is safe for every graft.
   */
  lemma GraftWorks(t: Table, name: Labels, path: Path)
    requires WellNumbered(t)
    ensures var u := Graft(t, name, path);
            && WellNumbered(u.table)
            && (TableInv(t) ==> (TableInv(u.table) <==> SafeToGraft(t, name, path)))
            && (TableInv(t) && NoWrap(t) ==> TableInv(u.table))
            && (u.error.None? ==> HasName(u.table, name) && PathOf(u.table, name) == path)
            && (forall n :: HasName(t, n) ==> HasName(u.table, n) && PathOf(u.table, n) == PathOf(t, n))
            && AddsOnly(t, u.table, name)
  {
    var u := Graft(t, name, path);
    if 0 < |name| == |path| <= MAX_DEPTH {
      GraftExtends(t, [], name, path);
      assert [] + name == name;
      GraftKeepsNumbering(t, [], name, path);
      if TableInv(t) {
        GraftFromKeepsInvIff(t, [], name, path);
      }
      if NoWrap(t) {
        NoWrapIsSafe(t, [], name, path);
      }
    }
    forall n | HasName(t, n)
      ensures HasName(u.table, n) && PathOf(u.table, n) == PathOf(t, n)
    {
      ExtendsKeepsPath(t, u.table, [], n);
    }
  }

  // ---- an unsafe graft that can happen ----

  lemma FirstGraft(l: Label, nid: uint32)
    requires nid != 0
    ensures Graft(NewTable(), [l], [nid]) == Update(map[[] := Slot(0, (nid + 1) % TWO32), [l] := Slot(nid, 1)], None)
  {
    assert [] + [l] == [l] && [l][1..] == [] && [nid][1..] == [];
    var t := Insert(NewTable(), [], l, nid, (nid + 1) % TWO32);
    assert !NidTaken(NewTable(), [], nid);
    assert GraftFrom(t, [l], [], []) == Update(t, None);
  }

  /**
   * Two grafts into a new tree are enough. The first wraps the counter with the largest
   * identifier; any smaller one after it is accepted and leaves the counter below the first.
   */
  lemma WrappedCounterIsLiftedBack(l: Label, m: Label, nid: uint32)
    requires l != m && 0 < nid < 0xFFFF_FFFF
    ensures var u := Graft(NewTable(), [l], [0xFFFF_FFFF]);
            && u.error.None? && TableInv(u.table) && !NoWrap(u.table)
            && Graft(u.table, [m], [nid]).error.None? && !TableInv(Graft(u.table, [m], [nid]).table)
  {
    var t: Table := map[[] := Slot(0, 0), [l] := Slot(0xFFFF_FFFF, 1)];
    FirstGraft(l, 0xFFFF_FFFF);
    NewIsReplica(NewTable());
    GraftWorks(NewTable(), [l], [0xFFFF_FFFF]);
    assert t[[]].next == 0;
    SecondGraft(t, l, m, nid);
  }

  lemma SecondGraft(t: Table, l: Label, m: Label, nid: uint32)
    requires t == map[[] := Slot(0, 0), [l] := Slot(0xFFFF_FFFF, 1)] && TableInv(t) && l != m && 0 < nid < 0xFFFF_FFFF
    ensures var u := Graft(t, [m], [nid]);
            && u == Update(map[[] := Slot(0, nid + 1), [l] := Slot(0xFFFF_FFFF, 1), [m] := Slot(nid, 1)], None)
            && !TableInv(u.table)
  {
    assert [] + [m] == [m] && [] + [l] == [l] && [m][0] != [l][0];
    assert !NidTaken(t, [], nid);
    assert [m][1..] == [] && [nid][1..] == [];
    var t' := Insert(t, [], m, nid, nid + 1);
    assert t' == map[[] := Slot(0, nid + 1), [l] := Slot(0xFFFF_FFFF, 1), [m] := Slot(nid, 1)];
    assert GraftFrom(t', [m], [], []) == Update(t', None);
    LeftBehind(t', l);
  }

  lemma LeftBehind(t: Table, l: Label)
    requires [] in t && [l] in t && t[[l]].nid >= Bound(t[[]].next)
    ensures !TableInv(t)
  {
    assert [] + [l] == [l];
  }

  /**
   * What becomes of it: after a graft of 2^32-2 the next name allocated beside them is given the
   * identifier that the first one bears.
   */
  lemma LiveIdentifierIsReissued(l: Label, m: Label, x: Label)
    requires l != m && x != l && x != m
    ensures var u1 := Graft(NewTable(), [l], [0xFFFF_FFFF]);
            && u1.error.None? && [] in u1.table
            && var u2 := Graft(u1.table, [m], [0xFFFF_FFFE]);
               && u2.error.None? && [] in u2.table && !SafeToAllocate(u2.table, [x])
               && var u := Allocate(u2.table, [x]);
                  u.error.None? && Bears(u.table, [l], [0xFFFF_FFFF]) && Bears(u.table, [x], [0xFFFF_FFFF])
  {
    var t1: Table := map[[] := Slot(0, 0), [l] := Slot(0xFFFF_FFFF, 1)];
    var t: Table := map[[] := Slot(0, 0xFFFF_FFFF), [l] := Slot(0xFFFF_FFFF, 1), [m] := Slot(0xFFFF_FFFE, 1)];
    WrappedCounterIsLiftedBack(l, m, 0xFFFF_FFFE);
    FirstGraft(l, 0xFFFF_FFFF);
    SecondGraft(t1, l, m, 0xFFFF_FFFE);
    OneLevelBears(t, l);
    assert [x][0] != [l][0] && [x][0] != [m][0] && [] + [x] == [x] && [] + [l] == [l];
    SiblingTakesNid(t, [], l);
    NextChild(t, [], x);
    AllocateExtends(t, [], [x]);
    ExtendsKeepsPath(t, Allocate(t, [x]).table, [], [l]);
    assert [] + [0xFFFF_FFFF as uint32] == [0xFFFF_FFFF];
    assert [x][1..] == [];
    assert AllocateFrom(Insert(t, [], x, 0xFFFF_FFFF, 0), [x], []).error.None?;
  }

  lemma OneLevelBears(t: Table, l: Label)
    requires [l] in t
    ensures Bears(t, [l], [t[[l]].nid])
  {
    assert [] + [l] == [l] && [l][1..] == [];
    assert Live(t, [l], []);
  }

  // ---- when a graft succeeds, and what a failed one leaves ----

  /** The demanded identifiers contradict nothing: no zero, no renumbering, no number used twice. */
  predicate Agrees(t: Table, at: Labels, rest: Labels, path: Path)
    requires |rest| == |path|
    decreases |rest|
  {
    if rest == [] then true
    else
      && path[0] != 0
      && if at + [rest[0]] in t
         then t[at + [rest[0]]].nid == path[0] && Agrees(t, at + [rest[0]], rest[1..], path[1..])
         else !NidTaken(t, at, path[0]) && 0 !in path[1..]
  }

  lemma {:induction false} GraftBelowNewNode(t: Table, at: Labels, rest: Labels, path: Path)
    requires at in t && |rest| == |path| && forall p :: p in t && at <= p ==> p == at
    ensures GraftFrom(t, at, rest, path).error.None? <==> 0 !in path
    decreases |rest|
  {
    if rest != [] {
      assert path == [path[0]] + path[1..];
      var at' := at + [rest[0]];
      assert at <= at';
      forall l: Label {:trigger at + [l]}
        ensures at + [l] !in t
      {
        assert at <= at + [l];
      }
      NotTaken(t, at, path[0]);
      if path[0] != 0 {
        var t' := Insert(t, at, rest[0], path[0], RaisedCounter(t[at].next, path[0]));
        forall p | p in t' && at' <= p
          ensures p == at'
        {
          assert at == at'[..|at|];
        }
        GraftBelowNewNode(t', at', rest[1..], path[1..]);
      }
    }
  }

  /** A graft succeeds exactly when it contradicts nothing. */
  lemma {:induction false} GraftSucceedsIff(t: Table, at: Labels, rest: Labels, path: Path)
    requires WellNumbered(t) && at in t && |rest| == |path|
    ensures GraftFrom(t, at, rest, path).error.None? <==> Agrees(t, at, rest, path)
    decreases |rest|
  {
    if rest != [] && path[0] != 0 {
      var at' := at + [rest[0]];
      if at' in t {
        GraftSucceedsIff(t, at', rest[1..], path[1..]);
      } else if !NidTaken(t, at, path[0]) {
        NothingBelow(t, at');
        var t' := Insert(t, at, rest[0], path[0], RaisedCounter(t[at].next, path[0]));
        assert !(at' <= at);
        GraftBelowNewNode(t', at', rest[1..], path[1..]);
      }
    }
  }

  /** A reserved zero that is met only after new levels have been created. */
  ghost predicate LateZero(t: Table, at: Labels, rest: Labels, path: Path)
    requires |rest| == |path|
  {
    exists z :: 0 <= z < |path| && ZeroAt(t, at, rest, path, z)
  }

  predicate ZeroAt(t: Table, at: Labels, rest: Labels, path: Path, z: nat)
    requires |rest| == |path| && z < |path|
  {
    path[z] == 0 && at + rest[..z] !in t && Agrees(t, at, rest[..z], path[..z])
  }

  lemma {:induction false} TableGrows(t: Table, at: Labels, rest: Labels, path: Path)
    requires at in t && |rest| == |path|
    ensures forall p :: p in t ==> p in GraftFrom(t, at, rest, path).table
    decreases |rest|
  {
    if rest != [] && path[0] != 0 {
      if at + [rest[0]] in t {
        TableGrows(t, at + [rest[0]], rest[1..], path[1..]);
      } else if !NidTaken(t, at, path[0]) {
        TableGrows(Insert(t, at, rest[0], path[0], RaisedCounter(t[at].next, path[0])),
                   at + [rest[0]], rest[1..], path[1..]);
      }
    }
  }

  lemma FirstZero(path: Path) returns (z: nat)
    requires 0 in path
    ensures z < |path| && path[z] == 0 && 0 !in path[..z]
  {
    z := 0;
    while path[z] != 0
      invariant z < |path| && 0 !in path[..z] && 0 in path[z..]
      decreases |path| - z
    {
      z := z + 1;
    }
  }

  /**
   * Grafts are all or nothing with one exception, stated exactly: a refused graft has changed
   * the tree if and only if it ran into a zero after creating a level, everything before that
   * zero being acceptable. In particular a path without zeros is grafted in full or not at all.
   */
  lemma {:induction false} GraftIsAtomicIff(t: Table, at: Labels, rest: Labels, path: Path)
    requires WellNumbered(t) && at in t && |rest| == |path|
    ensures var u := GraftFrom(t, at, rest, path);
            u.error.Some? && u.table != t <==> LateZero(t, at, rest, path)
    decreases |rest|
  {
    var u := GraftFrom(t, at, rest, path);
    if rest == [] {
    } else if path[0] == 0 || (at + [rest[0]] !in t && NidTaken(t, at, path[0]))
            || (at + [rest[0]] in t && t[at + [rest[0]]].nid != path[0]) {
      RefusedAtOnce(t, at, rest, path);
    } else if at + [rest[0]] in t {
      GraftIsAtomicIff(t, at + [rest[0]], rest[1..], path[1..]);
      LateZeroBelow(t, at, rest, path);
    } else {
      NewLevelThenZero(t, at, rest, path);
    }
  }

  /** Once a level has been created, the graft fails exactly when a zero is still to come. */
  lemma NewLevelThenZero(t: Table, at: Labels, rest: Labels, path: Path)
    requires WellNumbered(t) && at in t && |rest| == |path| && rest != []
    requires path[0] != 0 && at + [rest[0]] !in t && !NidTaken(t, at, path[0])
    ensures GraftFrom(t, at, rest, path).table != t
    ensures GraftFrom(t, at, rest, path).error.Some? <==> 0 in path[1..]
    ensures LateZero(t, at, rest, path) <==> 0 in path[1..]
  {
    var at' := at + [rest[0]];
    NothingBelow(t, at');
    var t' := Insert(t, at, rest[0], path[0], RaisedCounter(t[at].next, path[0]));
    assert !(at' <= at);
    GraftBelowNewNode(t', at', rest[1..], path[1..]);
    TableGrows(t', at', rest[1..], path[1..]);
    assert at' in GraftFrom(t, at, rest, path).table;
    if 0 in path[1..] {
      var z := FirstZero(path[1..]);
      assert path[1..][..z] == path[..z + 1][1..] && path[z + 1] == 0;
      assert at' <= at + rest[..z + 1];
      assert rest[..z + 1][0] == rest[0];
      assert ZeroAt(t, at, rest, path, z + 1);
    }
    if z :| 0 <= z < |path| && ZeroAt(t, at, rest, path, z) {
      assert z != 0 && path[1..][z - 1] == 0;
    }
  }

  lemma RefusedAtOnce(t: Table, at: Labels, rest: Labels, path: Path)
    requires at in t && |rest| == |path| && rest != []
    requires path[0] == 0 || (at + [rest[0]] !in t && NidTaken(t, at, path[0]))
          || (at + [rest[0]] in t && t[at + [rest[0]]].nid != path[0])
    ensures GraftFrom(t, at, rest, path).table == t && !LateZero(t, at, rest, path)
  {
    forall z | 0 <= z < |path|
      ensures !ZeroAt(t, at, rest, path, z)
    {
      if z == 0 {
        assert at + rest[..0] == at;
      } else {
        assert rest[..z][0] == rest[0] && path[..z][0] == path[0];
      }
    }
  }

  lemma LateZeroBelow(t: Table, at: Labels, rest: Labels, path: Path)
    requires |rest| == |path| && rest != [] && at in t && path[0] != 0
    requires at + [rest[0]] in t && t[at + [rest[0]]].nid == path[0]
    ensures LateZero(t, at, rest, path) <==> LateZero(t, at + [rest[0]], rest[1..], path[1..])
  {
    var at' := at + [rest[0]];
    forall z | 1 <= z < |path|
      ensures ZeroAt(t, at, rest, path, z) <==> ZeroAt(t, at', rest[1..], path[1..], z - 1)
    {
      assert rest[..z][0] == rest[0] && path[..z][0] == path[0];
      assert rest[..z][1..] == rest[1..][..z - 1] && path[..z][1..] == path[1..][..z - 1];
      assert at + rest[..z] == at' + rest[1..][..z - 1];
    }
    if z :| 0 <= z < |path| && ZeroAt(t, at, rest, path, z) {
      assert z != 0;
      assert ZeroAt(t, at', rest[1..], path[1..], z - 1);
    }
    if z :| 0 <= z < |path[1..]| && ZeroAt(t, at', rest[1..], path[1..], z) {
      assert ZeroAt(t, at', rest[1..], path[1..], z + 1 - 1);
      assert ZeroAt(t, at, rest, path, z + 1);
    }
  }

  // ---- replication ----

  datatype Entry = Entry(name: Labels, path: Path)

  /** Grafts a published table entry by entry, giving up at the first refusal. */
  function Adopt(t: Table, es: seq<Entry>): Update
    requires [] in t
    decreases |es|
  {
    if es == [] then Update(t, None)
    else
      var u := Graft(t, es[0].name, es[0].path);
      if u.error.Some? then u
      else
        GraftKeepsRoot(t, es[0].name, es[0].path);
        Adopt(u.table, es[1..])
  }

  lemma GraftKeepsRoot(t: Table, name: Labels, path: Path)
    requires [] in t
    ensures [] in Graft(t, name, path).table
  {
    if 0 < |name| == |path| <= MAX_DEPTH {
      TableGrows(t, [], name, path);
    }
  }

  /** One line of the listing an authority publishes. */
  predicate IsEntry(t: Table, e: Entry) {
    e.name != [] && HasName(t, e.name) && e.path == PathOf(t, e.name)
  }

  /** Part of the source's assignments. */
  predicate Replica(d: Table, t: Table) {
    forall p :: p in d && p != [] ==> p in t && d[p].nid == t[p].nid
  }

  /** Every counter stands right behind the largest child, or at 1 when there is none. */
  ghost predicate Tight(d: Table) {
    forall p: Labels :: p in d ==> TightAt(d, p)
  }

  ghost predicate TightAt(d: Table, p: Labels)
    requires p in d
  {
    d[p].next == 1 || exists l: Label :: p + [l] in d && d[p].next == d[p + [l]].nid + 1
  }

  /** What a consumer holds after any part of the listing, whatever its counters are. */
  ghost predicate PartOf(d: Table, t: Table) {
    WellNumbered(d) && Replica(d, t)
  }

  ghost predicate ReplicaInv(d: Table, t: Table) {
    TableInv(d) && NoWrap(d) && Replica(d, t) && Tight(d) && d[[]].nid == 0
  }

  /** Where no counter has wrapped, those of the replica are known as well. */
  ghost predicate Counted(d: Table, t: Table) {
    TableInv(t) && NoWrap(t) && ReplicaInv(d, t)
  }

  lemma NidsLeaveRoom(t: Table, p: Labels, l: Label)
    requires TableInv(t) && NoWrap(t) && p + [l] in t
    ensures 0 < t[p + [l]].nid < 0xFFFF_FFFF
  {
    assert p in t;
  }

  lemma InsertKeepsTight(d: Table, at: Labels, l: Label, nid: uint32)
    requires TableInv(d) && Tight(d) && at in d && at + [l] !in d && nid < 0xFFFF_FFFF && d[at].next != 0
    ensures Tight(Insert(d, at, l, nid, RaisedCounter(d[at].next, nid)))
  {
    var d' := Insert(d, at, l, nid, RaisedCounter(d[at].next, nid));
    forall p: Labels | p in d'
      ensures TightAt(d', p)
    {
      if p != at + [l] {
        assert TightAt(d, p);
        if p == at && nid >= d[at].next {
          assert at + [l] in d' && d'[at].next == d'[at + [l]].nid + 1;
        } else if d[p].next != 1 {
          var m :| p + [m] in d && d[p].next == d[p + [m]].nid + 1;
          assert p + [m] in d' && d'[p + [m]].nid == d[p + [m]].nid;
        }
      }
    }
  }

  /** Creating one level of the source in a replica. */
  lemma InsertLevel(d: Table, t: Table, at: Labels, l: Label)
    requires PartOf(d, t) && WellNumbered(t) && at in d && |at| < MAX_DEPTH
    requires at + [l] in t && at + [l] !in d
    ensures var nid := t[at + [l]].nid;
            nid != 0 && !NidTaken(d, at, nid) && PartOf(Insert(d, at, l, nid, RaisedCounter(d[at].next, nid)), t)
  {
    var nid := t[at + [l]].nid;
    forall m: Label {:trigger at + [m]} | at + [m] in d
      ensures d[at + [m]].nid != nid
    {
      assert |at + [m]| > 0;
      assert at + [m] in t && m != l;
    }
    NotTaken(d, at, nid);
    InsertKeepsNumbering(d, at, l, nid, RaisedCounter(d[at].next, nid));
  }

  lemma InsertLevelCounted(d: Table, t: Table, at: Labels, l: Label)
    requires PartOf(d, t) && Counted(d, t) && at in d && |at| < MAX_DEPTH && at + [l] in t && at + [l] !in d
    ensures var nid := t[at + [l]].nid; Counted(Insert(d, at, l, nid, RaisedCounter(d[at].next, nid)), t)
  {
    var nid := t[at + [l]].nid;
    InsertLevel(d, t, at, l);
    NidsLeaveRoom(t, at, l);
    RaisedIsAbove(d[at].next, nid);
    InsertKeepsInv(d, at, l, nid, RaisedCounter(d[at].next, nid));
    InsertKeepsTight(d, at, l, nid);
    assert |at + [l]| == |at| + 1;
  }

  /** p lies on the way from `at` down to `name`. */
  predicate OnTheWay(at: Labels, p: Labels, name: Labels) {
    at <= p && p <= name
  }

  /** The names of d' are those of d and the ones on the way to `name`. */
  ghost predicate AddsWay(d: Table, d': Table, at: Labels, name: Labels) {
    forall p :: p in d' <==> p in d || OnTheWay(at, p, name)
  }

  lemma NoWay(d: Table, at: Labels)
    requires at in d
    ensures AddsWay(d, d, at, at)
  {
    forall p | OnTheWay(at, p, at)
      ensures p == at
    {
    }
  }

  lemma LongerWay(d: Table, d1: Table, d2: Table, at: Labels, rest: Labels)
    requires rest != [] && at in d && AddsWay(d1, d2, at + [rest[0]], at + rest)
    requires forall p :: p in d1 <==> p in d || p == at + [rest[0]]
    ensures AddsWay(d, d2, at, at + rest)
  {
    var at' := at + [rest[0]];
    assert at' <= at + rest;
    forall p
      ensures OnTheWay(at, p, at + rest) <==> p == at || OnTheWay(at', p, at + rest)
    {
      if OnTheWay(at, p, at + rest) && p != at {
        assert p[|at|] == rest[0];
      }
      if OnTheWay(at', p, at + rest) {
        assert at == at'[..|at|] == p[..|at|];
      }
    }
  }

  /** Grafting an entry of the source into a partial replica succeeds and adds just that name. */
  lemma {:induction false} GraftEntry(d: Table, t: Table, at: Labels, rest: Labels)
    requires PartOf(d, t) && WellNumbered(t) && at in d && Live(t, at, rest) && |at + rest| <= MAX_DEPTH
    ensures var u := GraftFrom(d, at, rest, PathFrom(t, at, rest));
            && u.error.None? && PartOf(u.table, t) && AddsWay(d, u.table, at, at + rest)
            && (Counted(d, t) ==> Counted(u.table, t))
    decreases |rest|
  {
    if rest == [] {
      assert at + rest == at;
      NoWay(d, at);
    } else {
      Regroup(at, rest);
      var at' := at + [rest[0]];
      var d1 := d;
      if at' !in d {
        InsertLevel(d, t, at, rest[0]);
        d1 := Insert(d, at, rest[0], t[at'].nid, RaisedCounter(d[at].next, t[at'].nid));
        if Counted(d, t) {
          InsertLevelCounted(d, t, at, rest[0]);
        }
      }
      assert |at'| > 0 && t[at'].nid != 0;
      GraftEntry(d1, t, at', rest[1..]);
      LongerWay(d, d1, GraftFrom(d, at, rest, PathFrom(t, at, rest)).table, at, rest);
    }
  }

  lemma GraftOneEntry(d: Table, t: Table, e: Entry)
    requires PartOf(d, t) && WellNumbered(t) && IsEntry(t, e)
    ensures var u := Graft(d, e.name, e.path);
            && u.error.None? && PartOf(u.table, t) && (Counted(d, t) ==> Counted(u.table, t))
            && forall p :: p in u.table <==> p in d || p <= e.name
  {
    NamesAreMembers(t, e.name);
    GraftEntry(d, t, [], e.name);
    assert [] + e.name == e.name;
    assert forall p :: OnTheWay([], p, e.name) <==> p <= e.name;
  }

  /** The names a list of entries brings, with all their ancestors. */
  ghost predicate Covered(es: seq<Entry>, p: Labels) {
    exists i :: 0 <= i < |es| && p <= es[i].name
  }

  lemma CoverSplits(es: seq<Entry>, p: Labels)
    requires es != []
    ensures Covered(es, p) <==> p <= es[0].name || Covered(es[1..], p)
  {
    if Covered(es[1..], p) {
      var i :| 0 <= i < |es[1..]| && p <= es[1..][i].name;
      assert p <= es[i + 1].name;
    }
    if Covered(es, p) && !(p <= es[0].name) {
      var i :| 0 <= i < |es| && p <= es[i].name;
      assert p <= es[1..][i - 1].name;
    }
  }

  /**
   * Whatever part of an authority's table a consumer holds, every entry is accepted and adds
   * just its name and the names above it.
   */
  lemma {:induction false} AdoptWorks(d: Table, t: Table, es: seq<Entry>)
    requires PartOf(d, t) && WellNumbered(t)
    requires forall e :: e in es ==> IsEntry(t, e)
    ensures var u := Adopt(d, es);
            && u.error.None? && PartOf(u.table, t) && (Counted(d, t) ==> Counted(u.table, t))
            && forall p :: p in u.table <==> p in d || Covered(es, p)
    decreases |es|
  {
    if es != [] {
      GraftOneEntry(d, t, es[0]);
      var d' := Graft(d, es[0].name, es[0].path).table;
      AdoptWorks(d', t, es[1..]);
      forall p
        ensures p in Adopt(d, es).table <==> p in d || Covered(es, p)
      {
        CoverSplits(es, p);
      }
    }
  }

  /** Two replicas of one source with the same names are the same table, counters included. */
  lemma ReplicasAgree(d1: Table, d2: Table, t: Table)
    requires ReplicaInv(d1, t) && ReplicaInv(d2, t) && d1.Keys == d2.Keys
    ensures d1 == d2
  {
    forall p | p in d1
      ensures d1[p] == d2[p]
    {
      CountersAgree(d1, d2, t, p);
      CountersAgree(d2, d1, t, p);
    }
  }

  lemma CountersAgree(d1: Table, d2: Table, t: Table, p: Labels)
    requires ReplicaInv(d1, t) && ReplicaInv(d2, t) && d1.Keys == d2.Keys && p in d1
    ensures d1[p].nid == d2[p].nid && d1[p].next <= d2[p].next
  {
    assert p in d2;
    assert TightAt(d1, p);
    if d1[p].next != 1 {
      var l :| p + [l] in d1 && d1[p].next == d1[p + [l]].nid + 1;
      assert p + [l] in d2 && d2[p + [l]].nid == d1[p + [l]].nid;
    }
  }

  /**
   * Replication is independent of order. Whatever entries of an authority's table a consumer
   * receives, in whatever order and however often each, every graft is accepted, and two
   * consumers that received the same names resolve every name alike; when no counter of the
   * authority has wrapped, they hold identical tables.
   */
  lemma ReplicationIsOrderIndependent(t: Table, es1: seq<Entry>, es2: seq<Entry>)
    requires WellNumbered(t)
    requires forall e :: e in es1 ==> IsEntry(t, e)
    requires forall e :: e in es2 ==> e in es1
    requires forall e :: e in es1 ==> e in es2
    ensures var u1, u2 := Adopt(NewTable(), es1), Adopt(NewTable(), es2);
            && u1.error.None? && u2.error.None? && u1.table.Keys == u2.table.Keys
            && (forall name :: Resolve(u1.table, name) == Resolve(u2.table, name))
            && (TableInv(t) && NoWrap(t) ==> u1 == u2)
  {
    NewIsReplica(t);
    AdoptWorks(NewTable(), t, es1);
    AdoptWorks(NewTable(), t, es2);
    var d1, d2 := Adopt(NewTable(), es1).table, Adopt(NewTable(), es2).table;
    forall p: Labels
      ensures p in d1.Keys <==> p in d2.Keys
    {
      SameCover(es1, es2, p);
      SameCover(es2, es1, p);
    }
    assert d1.Keys == d2.Keys;
    PartsResolveAlike(d1, d2, t);
    if TableInv(t) && NoWrap(t) {
      ReplicasAgree(d1, d2, t);
    }
  }

  lemma PartsResolveAlike(d1: Table, d2: Table, t: Table)
    requires PartOf(d1, t) && PartOf(d2, t) && d1.Keys == d2.Keys
    ensures forall name :: Resolve(d1, name) == Resolve(d2, name)
  {
    forall p | p in d1 && p != []
      ensures p in d2 && d1[p].nid == d2[p].nid
    {
      assert p in d1.Keys;
    }
    forall name: Labels
      ensures Resolve(d1, name) == Resolve(d2, name)
    {
      NamesAreMembers(d1, name);
      NamesAreMembers(d2, name);
      if HasName(d1, name) {
        SameNidsSamePath(d1, d2, [], name);
      }
    }
  }

  lemma SameCover(es1: seq<Entry>, es2: seq<Entry>, p: Labels)
    requires forall e :: e in es1 ==> e in es2
    ensures Covered(es1, p) ==> Covered(es2, p)
  {
    if Covered(es1, p) {
      var i :| 0 <= i < |es1| && p <= es1[i].name;
      assert es1[i] in es2;
      var j :| 0 <= j < |es2| && es2[j] == es1[i];
    }
  }

  lemma NewIsReplica(t: Table)
    ensures ReplicaInv(NewTable(), t) && PartOf(NewTable(), t)
  {
    assert TableInv(NewTable()) by {
      forall p: Labels, l: Label {:trigger p + [l]}
        ensures p + [l] !in NewTable()
      {
        assert |p + [l]| > 0;
      }
    }
    assert TightAt(NewTable(), []);
  }

  /** Grafting what is there changes nothing. */
  lemma {:induction false} GraftAgain(t: Table, at: Labels, rest: Labels)
    requires WellNumbered(t) && at in t && Live(t, at, rest)
    ensures GraftFrom(t, at, rest, PathFrom(t, at, rest)) == Update(t, None)
    decreases |rest|
  {
    if rest != [] {
      assert t[at + [rest[0]]].nid != 0;
      GraftAgain(t, at + [rest[0]], rest[1..]);
    }
  }

  lemma {:induction false} AdoptAgain(d: Table, es: seq<Entry>)
    requires WellNumbered(d) && forall e :: e in es ==> IsEntry(d, e)
    ensures Adopt(d, es) == Update(d, None)
    decreases |es|
  {
    if es != [] {
      assert IsEntry(d, es[0]);
      NamesAreMembers(d, es[0].name);
      GraftAgain(d, [], es[0].name);
      AdoptAgain(d, es[1..]);
    }
  }

  /**
   * A consumer that has received every entry of the table resolves every name as the
   * authority does and knows no other name; receiving the table again changes nothing.
   */
  lemma ReplicaIsExact(t: Table, es: seq<Entry>)
    requires WellNumbered(t)
    requires forall e :: e in es ==> IsEntry(t, e)
    requires forall name :: HasName(t, name) && name != [] ==> Entry(name, PathOf(t, name)) in es
    ensures var d := Adopt(NewTable(), es).table;
            && d.Keys == t.Keys
            && (forall name :: Resolve(d, name) == Resolve(t, name))
            && [] in d && Adopt(d, es) == Update(d, None)
  {
    NewIsReplica(t);
    AdoptWorks(NewTable(), t, es);
    var d := Adopt(NewTable(), es).table;
    forall p: Labels
      ensures p in d <==> p in t
    {
      NamesAreMembers(t, p);
      if p in t && p != [] {
        assert Entry(p, PathOf(t, p)) in es;
        var i :| 0 <= i < |es| && es[i] == Entry(p, PathOf(t, p));
        assert p <= es[i].name;
      }
    }
    assert d.Keys == t.Keys by {
      assert forall p :: p in d.Keys <==> p in t.Keys;
    }
    forall name: Labels
      ensures Resolve(d, name) == Resolve(t, name)
    {
      NamesAreMembers(t, name);
      NamesAreMembers(d, name);
      if HasName(t, name) && name != [] {
        SameNidsSamePath(d, t, [], name);
      }
    }
    forall e | e in es
      ensures IsEntry(d, e)
    {
      assert IsEntry(t, e) && Resolve(d, e.name) == Resolve(t, e.name);
    }
    AdoptAgain(d, es);
  }

  lemma {:induction false} SameNidsSamePath(d: Table, t: Table, at: Labels, rest: Labels)
    requires Replica(d, t) && Live(d, at, rest) && Live(t, at, rest)
    ensures PathFrom(d, at, rest) == PathFrom(t, at, rest)
    decreases |rest|
  {
    if rest != [] {
      SameNidsSamePath(d, t, at + [rest[0]], rest[1..]);
    }
  }
}
