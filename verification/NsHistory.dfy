/** Never reuse, over whole histories of allocation, removal and restart. */
module NsHistory {
  import opened Basics
  import opened NsGraft
  import opened NsTable
  import opened NsSnapshot

  /**
   * Following the levels that exist and agree, the graft creates no level, or it creates its
   * first one with an identifier that was never issued there.
   */
  predicate FreshGraft(t: Table, at: Labels, rest: Labels, path: Path)
    requires at in t && |rest| == |path|
    decreases |rest|
  {
    if rest == [] || path[0] == 0 then true
    else if at + [rest[0]] in t then
      t[at + [rest[0]]].nid != path[0] || FreshGraft(t, at + [rest[0]], rest[1..], path[1..])
    else
      NidTaken(t, at, path[0]) || path[0] >= Bound(t[at].next)
  }

  /** What a caller can check before a graft. */
  predicate FreshToGraft(t: Table, name: Labels, path: Path)
    requires [] in t
  {
    0 < |name| == |path| <= MAX_DEPTH ==> FreshGraft(t, [], name, path)
  }

  /**
   * One event in the life of an authority: a name is allocated, or grafted with a path chosen
   * elsewhere, or removed; a restart is a snapshot followed by a restore.
   */
  datatype Op = Alloc(name: Labels) | Assign(name: Labels, path: Path) | Drop(name: Labels) | Restart

  /** A restart needs counters that have not wrapped, a graft must be fresh; the others need nothing. */
  predicate Permitted(t: Table, op: Op)
    requires [] in t
  {
    match op
    case Restart => NoWrap(t)
    case Assign(name, path) => FreshToGraft(t, name, path)
    case _ => true
  }

  function Perform(t: Table, op: Op): Table
    requires [] in t
  {
    match op
    case Alloc(name) => Allocate(t, name).table
    case Assign(name, path) => Graft(t, name, path).table
    case Drop(name) => Forget(t, name).table
    case Restart => Reloaded(t)
  }

  lemma {:induction false} FreshIsSafe(t: Table, at: Labels, rest: Labels, path: Path)
    requires at in t && |rest| == |path| && FreshGraft(t, at, rest, path)
    ensures GraftSafe(t, at, rest, path)
    decreases |rest|
  {
    if rest != [] && at + [rest[0]] in t && path[0] == t[at + [rest[0]]].nid != 0 {
      FreshIsSafe(t, at + [rest[0]], rest[1..], path[1..]);
    }
  }

  lemma PruneKeepsInv(t: Table, name: Labels)
    requires TableInv(t) && name != []
    ensures TableInv(Prune(t, name))
  {
    var t' := Prune(t, name);
    assert !(name <= []);
    forall p: Labels, l: Label {:trigger p + [l]} | p + [l] in t'
      ensures p in t' && 0 < t'[p + [l]].nid && t'[p + [l]].nid < Bound(t'[p].next)
    {
      assert p + [l] in t && (p + [l])[..|p|] == p;
    }
    forall p: Labels, l: Label, l': Label {:trigger p + [l], p + [l']}
      | p + [l] in t' && p + [l'] in t' && t'[p + [l]].nid == t'[p + [l']].nid
      ensures l == l'
    {
      assert p + [l] in t && p + [l'] in t;
    }
  }

  lemma PerformKeepsInv(t: Table, op: Op)
    requires TableInv(t) && Permitted(t, op)
    ensures TableInv(Perform(t, op))
  {
    match op
    case Alloc(name) => AllocateIsAllOrNothing(t, name);
    case Assign(name, path) =>
      GraftWorks(t, name, path);
      if 0 < |name| == |path| <= MAX_DEPTH {
        FreshIsSafe(t, [], name, path);
      }
    case Drop(name) =>
      if name != [] { PruneKeepsInv(t, name); }
    case Restart => assert Reloaded(t) == t;
  }

  predicate History(t: Table, ops: seq<Op>)
    requires TableInv(t)
    decreases |ops|
  {
    ops == [] || (Permitted(t, ops[0])
                  && (PerformKeepsInv(t, ops[0]); History(Perform(t, ops[0]), ops[1..])))
  }

  function AfterOps(t: Table, ops: seq<Op>): (t': Table)
    requires TableInv(t) && History(t, ops)
    ensures TableInv(t')
    decreases |ops|
  {
    if ops == [] then t
    else
      PerformKeepsInv(t, ops[0]);
      AfterOps(Perform(t, ops[0]), ops[1..])
  }

  // ---- what becomes of an issued path ----

  /** The path leads to a live node and stops there at an identifier that was issued and is gone. */
  ghost predicate Dead(t: Table, path: Path) {
    exists at: Labels :: DeadAt(t, at, path)
  }

  ghost predicate DeadAt(t: Table, at: Labels, path: Path) {
    && HasName(t, at) && at in t
    && |at| < |path| && PathOf(t, at) == path[..|at|]
    && path[|at|] < Bound(t[at].next)
    && forall l: Label {:trigger at + [l]} :: at + [l] in t ==> t[at + [l]].nid != path[|at|]
  }

  /** A path once issued to a name either still names it or can never name anything again. */
  ghost predicate Claimed(t: Table, name: Labels, path: Path) {
    Bears(t, name, path) || Dead(t, path)
  }

  /** Nobody bears a dead path. */
  lemma DeadNamesNobody(t: Table, other: Labels, path: Path)
    requires WellNumbered(t) && Dead(t, path)
    ensures !Bears(t, other, path)
  {
    if HasName(t, other) && |other| == |path| {
      var at :| DeadAt(t, at, path);
      RootPath(t, other, |at|);
      RootChild(t, other, |at|);
      assert at == other[..|at|] ==> at + [other[|at|]] in t;
      if PathOf(t, other)[..|at|] == path[..|at|] {
        PathsAreUnique(t, [], at, other[..|at|]);
      }
    }
  }

  /** A claimed path names nobody else. */
  lemma ClaimExcludes(t: Table, name: Labels, other: Labels, path: Path)
    requires TableInv(t) && Claimed(t, name, path) && Bears(t, other, path)
    ensures name == other
  {
    if Dead(t, path) {
      DeadNamesNobody(t, other, path);
    } else {
      PathsAreUnique(t, [], name, other);
    }
  }

  // ---- each operation keeps every claim ----

  /** A new node with a number at or above the counter touches no dead path. */
  lemma InsertKeepsDead(t: Table, at: Labels, l: Label, nid: uint32, next: uint32, path: Path)
    requires at in t && at + [l] !in t && Bound(t[at].next) <= nid && Bound(t[at].next) <= Bound(next) && Dead(t, path)
    ensures Dead(Insert(t, at, l, nid, next), path)
  {
    var t' := Insert(t, at, l, nid, next);
    var d :| DeadAt(t, d, path);
    ExtendsKeepsPath(t, t', [], d);
    forall m: Label {:trigger d + [m]} | d + [m] in t'
      ensures t'[d + [m]].nid != path[|d|]
    {
      AppendInjective(d, m, at, l);
    }
    assert DeadAt(t', d, path);
  }

  lemma {:induction false} AllocateKeepsDead(t: Table, at: Labels, rest: Labels, path: Path)
    requires at in t && Dead(t, path)
    ensures Dead(AllocateFrom(t, at, rest).table, path)
    decreases |rest|
  {
    if rest != [] {
      var at' := at + [rest[0]];
      if at' in t {
        AllocateKeepsDead(t, at', rest[1..], path);
      } else if t[at].next != 0 {
        var next := (t[at].next + 1) % TWO32;
        InsertKeepsDead(t, at, rest[0], t[at].next, next, path);
        AllocateKeepsDead(Insert(t, at, rest[0], t[at].next, next), at', rest[1..], path);
      }
    }
  }

  // ---- exactly which grafts keep dead paths dead ----

  lemma BareIsFresh(t: Table, at: Labels, rest: Labels, path: Path)
    requires at in t && |rest| == |path| && t[at].next == 1 && forall p :: p in t && at <= p ==> p == at
    ensures FreshGraft(t, at, rest, path)
  {
    if rest != [] {
      assert at <= at + [rest[0]];
    }
  }

  lemma {:induction false} FreshKeepsDead(t: Table, at: Labels, rest: Labels, path: Path, q: Path)
    requires WellNumbered(t) && at in t && |rest| == |path| && |at + rest| <= MAX_DEPTH
    requires FreshGraft(t, at, rest, path) && Dead(t, q)
    ensures Dead(GraftFrom(t, at, rest, path).table, q)
    decreases |rest|
  {
    if rest != [] && path[0] != 0 {
      Regroup(at, rest);
      var at' := at + [rest[0]];
      if at' in t {
        if t[at'].nid == path[0] {
          FreshKeepsDead(t, at', rest[1..], path[1..], q);
        }
      } else if !NidTaken(t, at, path[0]) {
        var next := RaisedCounter(t[at].next, path[0]);
        InsertKeepsDead(t, at, rest[0], path[0], next, q);
        InsertKeepsNumbering(t, at, rest[0], path[0], next);
        NewNodeIsBare(t, at, rest[0], path[0], next);
        var t' := Insert(t, at, rest[0], path[0], next);
        BareIsFresh(t', at', rest[1..], path[1..]);
        FreshKeepsDead(t', at', rest[1..], path[1..], q);
      }
    }
  }

  /** Where the graft is not fresh, a dead path comes to name a level of the name. */
  lemma {:induction false} StaleRevives(t: Table, at: Labels, rest: Labels, path: Path, base: Path) returns (k: nat)
    requires at in t && Bears(t, at, base) && |rest| == |path| && !FreshGraft(t, at, rest, path)
    ensures k < |rest| && Dead(t, base + path[..k + 1])
    ensures Bears(GraftFrom(t, at, rest, path).table, at + rest[..k + 1], base + path[..k + 1])
    decreases |rest|
  {
    var at' := at + [rest[0]];
    if at' in t {
      ChildBears(t, at, rest[0], base);
      var n := StaleRevives(t, at', rest[1..], path[1..], base + [path[0]]);
      k := n + 1;
      Longer(at, rest, k);
      LongerPath(base, path, k);
    } else {
      k := 0;
      StaleLevel(t, at, rest, path);
    }
  }

  lemma Longer(at: Labels, rest: Labels, k: nat)
    requires 0 < k < |rest|
    ensures at + [rest[0]] + rest[1..][..k] == at + rest[..k + 1]
  {
  }

  lemma LongerPath(base: Path, path: Path, k: nat)
    requires 0 < k < |path|
    ensures base + [path[0]] + path[1..][..k] == base + path[..k + 1]
  {
  }

  lemma StaleLevel(t: Table, at: Labels, rest: Labels, path: Path)
    requires at in t && HasName(t, at) && |rest| == |path| && rest != [] && at + [rest[0]] !in t && path[0] != 0
    requires !NidTaken(t, at, path[0]) && path[0] < Bound(t[at].next)
    ensures Dead(t, PathOf(t, at) + path[..1])
    ensures Bears(GraftFrom(t, at, rest, path).table, at + rest[..1], PathOf(t, at) + path[..1])
  {
    var q, u := PathOf(t, at) + [path[0]], GraftFrom(t, at, rest, path).table;
    assert path[..1] == [path[0]] && rest[..1] == [rest[0]] && q[..|at|] == PathOf(t, at);
    forall l: Label {:trigger at + [l]} | at + [l] in t
      ensures t[at + [l]].nid != path[0]
    {
      SiblingTakesNid(t, at, l);
    }
    assert DeadAt(t, at, q);
    var t' := Insert(t, at, rest[0], path[0], RaisedCounter(t[at].next, path[0]));
    GraftExtends(t', at + [rest[0]], rest[1..], path[1..]);
    ExtendsKeepsPath(t, u, [], at);
    ChildBears(u, at, rest[0], PathOf(t, at));
  }

  /**
   * A graft keeps every dead path dead exactly when it is fresh: when it creates no level or
   * asks for a number that was never issued there.
   */
  lemma GraftKeepsDeadIff(t: Table, name: Labels, path: Path)
    requires WellNumbered(t)
    ensures (forall q :: Dead(t, q) ==> Dead(Graft(t, name, path).table, q)) <==> FreshToGraft(t, name, path)
  {
    if 0 < |name| == |path| <= MAX_DEPTH {
      assert [] + name == name;
      if FreshGraft(t, [], name, path) {
        forall q | Dead(t, q)
          ensures Dead(Graft(t, name, path).table, q)
        {
          FreshKeepsDead(t, [], name, path, q);
        }
      } else {
        var k := StaleRevives(t, [], name, path, []);
        assert [] + path[..k + 1] == path[..k + 1] && [] + name[..k + 1] == name[..k + 1];
        GraftWorks(t, name, path);
        RevivedIsNotDead(Graft(t, name, path).table, name[..k + 1], path[..k + 1]);
      }
    }
  }

  lemma RevivedIsNotDead(t: Table, name: Labels, path: Path)
    requires WellNumbered(t) && Bears(t, name, path)
    ensures !Dead(t, path)
  {
    if Dead(t, path) {
      DeadNamesNobody(t, name, path);
    }
  }

  /** The smallest life in which it happens: x is allocated and forgotten, and y is grafted with its path. */
  lemma GraftReissues(x: Label, y: Label) returns (t1: Table, t2: Table)
    ensures Allocate(NewTable(), [x]) == Update(t1, None) && Bears(t1, [x], [1])
    ensures Forget(t1, [x]) == Update(t2, None)
    ensures [] in t2 && !FreshToGraft(t2, [y], [1])
    ensures Graft(t2, [y], [1]).error.None? && Bears(Graft(t2, [y], [1]).table, [y], [1])
  {
    t1 := map[[] := Slot(0, 2), [x] := Slot(1, 1)];
    t2 := map[[] := Slot(0, 2)];
    FirstAllocation(NewTable(), x);
    assert Prune(t1, [x]) == t2;
    assert [y] != [] && [] + [y] == [y] && [y][1..] == [] && [1 as uint32][1..] == [];
    var t3 := Insert(t2, [], y, 1, 2);
    assert GraftFrom(t3, [y], [], []) == Update(t3, None);
    OneLevelBears(t3, y);
  }

  /** Names outside a pruned subtree keep their paths. */
  lemma {:induction false} PruneKeepsOthers(t: Table, name: Labels, at: Labels, rest: Labels)
    requires Live(t, at, rest) && !(name <= at + rest)
    ensures Live(Prune(t, name), at, rest) && PathFrom(Prune(t, name), at, rest) == PathFrom(t, at, rest)
    decreases |rest|
  {
    if rest != [] {
      Regroup(at, rest);
      assert (at + rest)[..|at| + 1] == at + [rest[0]];
      assert !(name <= at + [rest[0]]);
      PruneKeepsOthers(t, name, at + [rest[0]], rest[1..]);
    }
  }

  /** Every path into a pruned subtree is dead, at the parent of the name that was removed. */
  lemma PrunedIsDead(t: Table, name: Labels, below: Labels, path: Path)
    requires TableInv(t) && name != [] && HasName(t, below) && name <= below
    requires |below| <= |path| && PathOf(t, below) == path[..|below|]
    ensures Dead(Prune(t, name), path)
  {
    var k := |name| - 1;
    var at := name[..k];
    var t' := Prune(t, name);
    assert below[..k] == at && below[..k + 1] == name;
    RootPath(t, below, k);
    RootChild(t, below, k);
    assert at + [name[k]] == name && [] + at == at;
    assert !(name <= at);
    NamesAreMembers(t, at);
    PruneKeepsOthers(t, name, [], at);
    assert at in t';
    forall l: Label {:trigger at + [l]} | at + [l] in t'
      ensures t'[at + [l]].nid != path[k]
    {
      assert l != name[k] && at + [l] in t && at + [name[k]] in t;
    }
    assert PathOf(t', at) == path[..k];
    assert DeadAt(t', at, path);
  }

  lemma PruneKeepsClaim(t: Table, gone: Labels, name: Labels, path: Path)
    requires TableInv(t) && gone != [] && Claimed(t, name, path)
    ensures Claimed(Prune(t, gone), name, path)
  {
    var t' := Prune(t, gone);
    if Bears(t, name, path) {
      if gone <= name {
        assert path[..|name|] == path;
        PrunedIsDead(t, gone, name, path);
      } else {
        assert [] + name == name;
        PruneKeepsOthers(t, gone, [], name);
      }
    } else {
      var at :| DeadAt(t, at, path);
      if gone <= at {
        PrunedIsDead(t, gone, at, path);
      } else {
        assert [] + at == at;
        PruneKeepsOthers(t, gone, [], at);
        forall l: Label {:trigger at + [l]} | at + [l] in t'
          ensures t'[at + [l]].nid != path[|at|]
        {
          assert at + [l] in t;
        }
        assert DeadAt(t', at, path);
      }
    }
  }

  lemma PerformKeepsClaim(t: Table, op: Op, name: Labels, path: Path)
    requires TableInv(t) && Permitted(t, op) && Claimed(t, name, path)
    ensures Claimed(Perform(t, op), name, path)
  {
    match op
    case Alloc(n) =>
      AllocateIsAllOrNothing(t, n);
      if Dead(t, path) && 0 < |n| <= MAX_DEPTH {
        AllocateKeepsDead(t, [], n, path);
      }
    case Assign(n, p) =>
      GraftWorks(t, n, p);
      GraftKeepsDeadIff(t, n, p);
    case Drop(n) =>
      if n != [] && HasName(t, n) { PruneKeepsClaim(t, n, name, path); }
    case Restart => assert Reloaded(t) == t;
  }

  lemma {:induction false} HistoryKeepsClaim(t: Table, ops: seq<Op>, name: Labels, path: Path)
    requires TableInv(t) && History(t, ops) && Claimed(t, name, path)
    ensures Claimed(AfterOps(t, ops), name, path)
    decreases |ops|
  {
    if ops != [] {
      PerformKeepsInv(t, ops[0]);
      PerformKeepsClaim(t, ops[0], name, path);
      HistoryKeepsClaim(Perform(t, ops[0]), ops[1..], name, path);
    }
  }

  /**
   * Identifiers are never reused. Take any moment of any history at which a name has a path.
   * At every later moment, after any allocations, fresh grafts, removals of leaves or whole
   * subtrees and restarts, whoever bears that path is the same name.
   */
  lemma NeverReused(t: Table, ops: seq<Op>, name: Labels, other: Labels)
    requires TableInv(t) && History(t, ops)
    requires HasName(t, name) && HasName(AfterOps(t, ops), other)
    requires PathOf(AfterOps(t, ops), other) == PathOf(t, name)
    ensures name == other
  {
    HistoryKeepsClaim(t, ops, name, PathOf(t, name));
    ClaimExcludes(AfterOps(t, ops), name, other, PathOf(t, name));
  }

  // ---- a wrapped counter ----

  lemma WrappedHasNoChild(t: Table, p: Labels, l: Label)
    requires TableInv(t) && Accepts(Pack(t, []), 0) && p in t && t[p].next == 0
    ensures p + [l] !in t
  {
    SnapshotAcceptedIff(t);
    assert ChildLabels(t, p) == {};
  }

  /** Every identifier below a wrapped counter without children is used up and gone. */
  lemma WrappedIsDead(t: Table, p: Labels)
    requires TableInv(t) && Accepts(Pack(t, []), 0) && p in t && t[p].next == 0
    ensures HasName(t, p) && Dead(t, PathOf(t, p) + [1])
  {
    NamesAreMembers(t, p);
    var path := PathOf(t, p) + [1];
    assert path[..|p|] == PathOf(t, p);
    forall l: Label {:trigger p + [l]}
      ensures p + [l] !in t
    {
      WrappedHasNoChild(t, p, l);
    }
    assert DeadAt(t, p, path);
  }

  /** A restart keeps every name and path. */
  lemma ReloadKeepsPath(t: Table, name: Labels)
    requires TableInv(t)
    ensures HasName(t, name) <==> HasName(Reloaded(t), name)
    ensures HasName(t, name) ==> PathOf(Reloaded(t), name) == PathOf(t, name)
  {
    if HasName(t, name) {
      ExtendsKeepsPath(t, Reloaded(t), [], name);
    }
    if HasName(Reloaded(t), name) {
      ExtendsKeepsPath(Reloaded(t), t, [], name);
    }
  }

  /** After the restart the same identifier is not dead: nothing says any more that it was issued. */
  lemma ReloadRevives(t: Table, p: Labels)
    requires TableInv(t) && Accepts(Pack(t, []), 0) && p in t && t[p].next == 0
    ensures HasName(t, p) && !Dead(Reloaded(t), PathOf(t, p) + [1])
  {
    NamesAreMembers(t, p);
    var path, d := PathOf(t, p) + [1], Reloaded(t);
    AcceptedIsSound(Pack(t, []), d) by {
      SnapshotRestores(t);
    }
    ReloadKeepsPath(t, p);
    forall at: Labels
      ensures !DeadAt(d, at, path)
    {
      if HasName(d, at) && |at| < |p| && PathOf(d, at) == path[..|at|] {
        RootPath(d, p, |at|);
        RootChild(d, p, |at|);
        PathsAreUnique(d, [], at, p[..|at|]);
        assert at + [p[|at|]] in d && d[at + [p[|at|]]].nid == path[|at|];
      } else if HasName(d, at) && |at| == |p| && PathOf(d, at) == path[..|at|] {
        PathsAreUnique(d, [], at, p);
      }
    }
  }

  /**
   * What a restart forgets, exactly: it keeps every dead path dead if and only if no counter
   * has wrapped.
   */
  lemma ReloadKeepsDeadIff(t: Table)
    requires TableInv(t) && Accepts(Pack(t, []), 0)
    ensures (forall path :: Dead(t, path) ==> Dead(Reloaded(t), path)) <==> NoWrap(t)
  {
    if NoWrap(t) {
      assert Reloaded(t) == t;
    } else {
      var p :| p in t && t[p].next == 0;
      WrappedIsDead(t, p);
      ReloadRevives(t, p);
    }
  }

  /**
   * The exception, for every tree: wherever a counter has wrapped and the snapshot is still
   * accepted, the first name allocated there after the restart takes a path that was dead.
   */
  lemma RestartAfterWrapReuses(t: Table, p: Labels, l: Label)
    requires TableInv(t) && Accepts(Pack(t, []), 0) && p in t && t[p].next == 0 && |p| < MAX_DEPTH
    ensures HasName(t, p) && Dead(t, PathOf(t, p) + [1])
    ensures Bears(Allocate(Reloaded(t), p + [l]).table, p + [l], PathOf(t, p) + [1])
  {
    WrappedIsDead(t, p);
    WrappedHasNoChild(t, p, l);
    SnapshotRestores(t);
    AcceptedIsSound(Pack(t, []), Reloaded(t));
    ReloadKeepsPath(t, p);
    NextChild(Reloaded(t), p, l);
  }

  // ---- a life in which it happens ----

  /** What is left of a root with two children when both are forgotten. */
  lemma ForgetBoth(t: Table, x: Label, a: Label)
    requires t == map[[] := Slot(0, 0), [x] := Slot(1, 1), [a] := Slot(0xFFFF_FFFF, 1)] && x != a
    ensures var u := Forget(t, [x]);
            && u.error.None? && Forget(u.table, [a]) == Update(map[[] := Slot(0, 0)], None)
  {
    assert [x][0] != [a][0] && [x][1..] == [] && [a][1..] == [] && [] + [x] == [x] && [] + [a] == [a];
    var t1: Table := map[[] := Slot(0, 0), [a] := Slot(0xFFFF_FFFF, 1)];
    assert HasName(t, [x]) && HasName(t1, [a]);
    assert Prune(t, [x]) == t1;
    assert Prune(t1, [a]) == map[[] := Slot(0, 0)];
  }

  lemma SecondChild(x: Label, a: Label)
    requires x != a
    ensures var t: Table := map[[] := Slot(0, 2), [x] := Slot(1, 1)];
            Graft(t, [a], [0xFFFF_FFFF])
            == Update(map[[] := Slot(0, 0), [x] := Slot(1, 1), [a] := Slot(0xFFFF_FFFF, 1)], None)
  {
    var t: Table := map[[] := Slot(0, 2), [x] := Slot(1, 1)];
    assert [x][0] != [a][0] && [] + [a] == [a] && [a][1..] == [] && [0xFFFF_FFFF as uint32][1..] == [];
    assert !NidTaken(t, [], 0xFFFF_FFFF);
    var t' := Insert(t, [], a, 0xFFFF_FFFF, 0);
    assert GraftFrom(t', [a], [], []) == Update(t', None);
  }

  /**
   * A life of one tree: x is allocated, a is grafted with the largest identifier, both are
   * forgotten, the tree is saved and restored, y is allocated. Every call succeeds, and y gets
   * the path that x bore.
   */
  lemma ReissuedInALife(x: Label, a: Label, y: Label) returns (t1: Table, t2: Table, t3: Table, t4: Table)
    requires x != a
    ensures Allocate(NewTable(), [x]) == Update(t1, None) && Bears(t1, [x], [1])
    ensures [] in t1 && Graft(t1, [a], [0xFFFF_FFFF]) == Update(t2, None)
    ensures Forget(t2, [x]) == Update(t3, None) && Forget(t3, [a]) == Update(t4, None)
    ensures TableInv(t4) && Accepts(Pack(t4, []), 0) && Bears(Allocate(Reloaded(t4), [y]).table, [y], [1])
  {
    t1 := map[[] := Slot(0, 2), [x] := Slot(1, 1)];
    t2 := map[[] := Slot(0, 0), [x] := Slot(1, 1), [a] := Slot(0xFFFF_FFFF, 1)];
    t3 := Forget(t2, [x]).table;
    t4 := map[[] := Slot(0, 0)];
    FirstAllocation(NewTable(), x);
    SecondChild(x, a);
    ForgetBoth(t2, x, a);
    LastOfALife(t4, y);
  }

  lemma LastOfALife(t: Table, y: Label)
    requires t == map[[] := Slot(0, 0)]
    ensures TableInv(t) && Accepts(Pack(t, []), 0) && Bears(Allocate(Reloaded(t), [y]).table, [y], [1])
  {
    OnlyRoot(t);
    SnapshotAcceptedIff(t);
    assert Reloaded(t) == map[[] := Slot(0, 1)];
    FirstAllocation(Reloaded(t), y);
  }

  lemma OnlyRoot(t: Table)
    requires t.Keys == {[]}
    ensures TableInv(t) && ChildLabels(t, []) == {}
  {
    forall p: Labels, l: Label {:trigger p + [l]}
      ensures p + [l] !in t
    {
      assert |p + [l]| > 0;
    }
  }

  lemma FirstAllocation(t: Table, l: Label)
    requires t == map[[] := Slot(0, 1)]
    ensures Allocate(t, [l]) == Update(map[[] := Slot(0, 2), [l] := Slot(1, 1)], None)
    ensures Bears(Allocate(t, [l]).table, [l], [1])
  {
    assert [] + [l] == [l] && [l][1..] == [];
    var t' := Insert(t, [], l, 1, 2);
    assert AllocateFrom(t', [l], []) == Update(t', None);
    assert Live(t', [l], []) && Live(t', [], [l]) && PathFrom(t', [l], []) == [];
  }
}
