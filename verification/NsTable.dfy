/**
 * The namespace-identifier tree as a value: one slot for every live name, keyed by its labels
 * from the root down. The pointer structure in NsTree.dfy is proved to compute these functions.
 */
module NsTable {
  import opened Basics

  const MAX_DEPTH: nat := 16

  type Label = string
  type Labels = seq<Label>
  type Path = seq<uint32>

  /** `next` is the identifier the next child gets; 0 means the counter has wrapped. */
  datatype Slot = Slot(nid: uint32, next: uint32)

  type Table = map<Labels, Slot>

  datatype NsError = Empty | TooDeep | Malformed | NotAllocated | Exhausted | Conflict

  /** What an update left behind, and how it ended. */
  datatype Update = Update(table: Table, error: Option<NsError>)

  function NewTable(): Table {
    map[[] := Slot(0, 1)]
  }

  /** The bound the counter stands for: a wrapped counter has issued every identifier. */
  function Bound(next: uint32): int {
    if next == 0 then TWO32 else next
  }

  // ---- the invariant ----

  ghost predicate ChildrenHaveParents(t: Table) {
    forall p: Labels, l: Label {:trigger p + [l]} :: p + [l] in t ==> p in t && 0 < t[p + [l]].nid
  }

  ghost predicate ChildrenBelowCounter(t: Table) {
    forall p: Labels, l: Label {:trigger p + [l]} ::
      p + [l] in t && p in t ==> t[p + [l]].nid < Bound(t[p].next)
  }

  ghost predicate SiblingsDiffer(t: Table) {
    forall p: Labels, l: Label, l': Label {:trigger p + [l], p + [l']} ::
      p + [l] in t && p + [l'] in t && t[p + [l]].nid == t[p + [l']].nid ==> l == l'
  }

  /** A tree of names with identifiers that tell siblings apart, whatever the counters say. */
  ghost predicate WellNumbered(t: Table) {
    && [] in t
    && ChildrenHaveParents(t)
    && SiblingsDiffer(t)
    && forall p :: p in t ==> |p| <= MAX_DEPTH
  }

  ghost predicate TableInv(t: Table) {
    WellNumbered(t) && ChildrenBelowCounter(t)
  }

  predicate NoWrap(t: Table) {
    forall p :: p in t ==> t[p].next != 0
  }

  // ---- names and paths ----

  /** Every level of `at + rest` below `at` exists. */
  predicate Live(t: Table, at: Labels, rest: Labels)
    decreases |rest|
  {
    rest == [] || (at + [rest[0]] in t && Live(t, at + [rest[0]], rest[1..]))
  }

  function PathFrom(t: Table, at: Labels, rest: Labels): (p: Path)
    requires Live(t, at, rest)
    ensures |p| == |rest|
    decreases |rest|
  {
    if rest == [] then []
    else [t[at + [rest[0]]].nid] + PathFrom(t, at + [rest[0]], rest[1..])
  }

  predicate HasName(t: Table, name: Labels) {
    Live(t, [], name)
  }

  function PathOf(t: Table, name: Labels): Path
    requires HasName(t, name)
  {
    PathFrom(t, [], name)
  }

  function Resolve(t: Table, name: Labels): Result<Path, NsError> {
    if name == [] then Err(Empty)
    else if HasName(t, name) then Ok(PathOf(t, name))
    else Err(NotAllocated)
  }

  lemma Regroup(at: Labels, rest: Labels)
    requires rest != []
    ensures at + [rest[0]] + rest[1..] == at + rest
  {
  }

  lemma {:induction false} LiveIsMember(t: Table, at: Labels, rest: Labels)
    requires WellNumbered(t) && at in t
    ensures Live(t, at, rest) <==> at + rest in t
    decreases |rest|
  {
    if rest == [] {
      assert at + rest == at;
    } else {
      Regroup(at, rest);
      if at + [rest[0]] in t {
        LiveIsMember(t, at + [rest[0]], rest[1..]);
      } else if at + rest in t {
        AncestorsExist(t, at + [rest[0]], rest[1..]);
      }
    }
  }

  lemma {:induction false} AncestorsExist(t: Table, at: Labels, rest: Labels)
    requires WellNumbered(t) && at + rest in t
    ensures at in t
    decreases |rest|
  {
    if rest == [] {
      assert at + rest == at;
    } else {
      var n := |rest| - 1;
      assert at + rest == at + rest[..n] + [rest[n]];
      AncestorsExist(t, at, rest[..n]);
    }
  }

  /** Having a name is the same as being in the table. */
  lemma NamesAreMembers(t: Table, name: Labels)
    requires WellNumbered(t)
    ensures HasName(t, name) <==> name in t
  {
    LiveIsMember(t, [], name);
    assert [] + name == name;
  }

  /** Parent-scoped identifiers are enough: a path names at most one node. */
  lemma {:induction false} PathsAreUnique(t: Table, at: Labels, a: Labels, b: Labels)
    requires WellNumbered(t) && Live(t, at, a) && Live(t, at, b)
    requires PathFrom(t, at, a) == PathFrom(t, at, b)
    ensures a == b
    decreases |a|
  {
    if a != [] {
      assert PathFrom(t, at, a)[0] == t[at + [a[0]]].nid;
      assert PathFrom(t, at, b)[0] == t[at + [b[0]]].nid;
      assert a[0] == b[0];
      assert PathFrom(t, at, a)[1..] == PathFrom(t, at + [a[0]], a[1..]);
      assert PathFrom(t, at, b)[1..] == PathFrom(t, at + [b[0]], b[1..]);
      PathsAreUnique(t, at + [a[0]], a[1..], b[1..]);
    }
  }

  lemma ConcatAssociates<X>(a: seq<X>, b: seq<X>, c: seq<X>)
    ensures a + (b + c) == (a + b) + c
  {
  }

  lemma {:induction false} PathSplits(t: Table, at: Labels, a: Labels, b: Labels)
    requires Live(t, at, a + b)
    ensures Live(t, at, a) && Live(t, at + a, b)
    ensures PathFrom(t, at, a + b) == PathFrom(t, at, a) + PathFrom(t, at + a, b)
    decreases |a|
  {
    if a == [] {
      assert a + b == b && at + a == at;
    } else {
      var child, rest := at + [a[0]], a[1..];
      assert (a + b)[0] == a[0] && (a + b)[1..] == rest + b;
      assert child + rest == at + a;
      PathSplits(t, child, rest, b);
      ConcatAssociates([t[child].nid], PathFrom(t, child, rest), PathFrom(t, at + a, b));
    }
  }

  lemma {:induction false} PathJoins(t: Table, at: Labels, a: Labels, b: Labels)
    requires Live(t, at, a) && Live(t, at + a, b)
    ensures Live(t, at, a + b)
    ensures PathFrom(t, at, a + b) == PathFrom(t, at, a) + PathFrom(t, at + a, b)
    decreases |a|
  {
    if a == [] {
      assert a + b == b && at + a == at;
    } else {
      var child, rest := at + [a[0]], a[1..];
      assert (a + b)[0] == a[0] && (a + b)[1..] == rest + b;
      assert child + rest == at + a;
      PathJoins(t, child, rest, b);
      ConcatAssociates([t[child].nid], PathFrom(t, child, rest), PathFrom(t, at + a, b));
    }
  }

  /** The name has exactly this path. */
  predicate Bears(t: Table, name: Labels, path: Path) {
    HasName(t, name) && PathOf(t, name) == path
  }

  lemma ChildBears(t: Table, name: Labels, l: Label, path: Path)
    requires Bears(t, name, path) && name + [l] in t
    ensures Bears(t, name + [l], path + [t[name + [l]].nid])
  {
    assert [l][1..] == [] && [] + name == name;
    assert Live(t, name, [l]) && PathFrom(t, name, [l]) == [t[name + [l]].nid];
    PathJoins(t, [], name, [l]);
  }

  lemma RootPath(t: Table, name: Labels, k: nat)
    requires HasName(t, name) && k <= |name|
    ensures HasName(t, name[..k]) && PathOf(t, name[..k]) == PathOf(t, name)[..k]
  {
    assert name == name[..k] + name[k..];
    assert [] + name[..k] == name[..k];
    PathSplits(t, [], name[..k], name[k..]);
  }

  lemma RootChild(t: Table, name: Labels, k: nat)
    requires HasName(t, name) && k < |name|
    ensures name[..k] + [name[k]] == name[..k + 1]
    ensures name[..k + 1] in t && PathOf(t, name)[k] == t[name[..k + 1]].nid
  {
    assert name == name[..k] + name[k..];
    assert [] + name[..k] == name[..k];
    PathSplits(t, [], name[..k], name[k..]);
    assert name[k..][0] == name[k];
    assert PathFrom(t, name[..k], name[k..])[0] == t[name[..k] + [name[k]]].nid;
  }

  // ---- updates ----

  /** A new node with an identifier, under a parent whose counter moves to `next`. */
  function Insert(t: Table, at: Labels, l: Label, nid: uint32, next: uint32): Table
    requires at in t
  {
    t[at := t[at].(next := next)][at + [l] := Slot(nid, 1)]
  }

  function AllocateFrom(t: Table, at: Labels, rest: Labels): Update
    requires at in t
    decreases |rest|
  {
    if rest == [] then Update(t, None)
    else if at + [rest[0]] in t then AllocateFrom(t, at + [rest[0]], rest[1..])
    else if t[at].next == 0 then Update(t, Some(Exhausted))
    else
      AllocateFrom(Insert(t, at, rest[0], t[at].next, (t[at].next + 1) % TWO32), at + [rest[0]], rest[1..])
  }

  function Allocate(t: Table, name: Labels): Update
    requires [] in t
  {
    if name == [] then Update(t, Some(Empty))
    else if |name| > MAX_DEPTH then Update(t, Some(TooDeep))
    else AllocateFrom(t, [], name)
  }

  predicate NidTaken(t: Table, at: Labels, nid: uint32) {
    exists p :: p in t && |p| == |at| + 1 && p[..|at|] == at && t[p].nid == nid
  }

  function RaisedCounter(next: uint32, nid: uint32): uint32 {
    if nid >= next then (nid + 1) % TWO32 else next
  }

  function GraftFrom(t: Table, at: Labels, rest: Labels, path: Path): Update
    requires at in t && |rest| == |path|
    decreases |rest|
  {
    if rest == [] then Update(t, None)
    else if path[0] == 0 then Update(t, Some(Malformed))
    else if at + [rest[0]] in t then
      if t[at + [rest[0]]].nid != path[0] then Update(t, Some(Conflict))
      else GraftFrom(t, at + [rest[0]], rest[1..], path[1..])
    else if NidTaken(t, at, path[0]) then Update(t, Some(Conflict))
    else
      GraftFrom(Insert(t, at, rest[0], path[0], RaisedCounter(t[at].next, path[0])),
                at + [rest[0]], rest[1..], path[1..])
  }

  function Graft(t: Table, name: Labels, path: Path): Update
    requires [] in t
  {
    if name == [] then Update(t, Some(Empty))
    else if |name| != |path| then Update(t, Some(Malformed))
    else if |name| > MAX_DEPTH then Update(t, Some(TooDeep))
    else GraftFrom(t, [], name, path)
  }

  /** Forget cuts the whole subtree off; the parent's counter stays where it is. */
  function Prune(t: Table, name: Labels): Table {
    map p | p in t && !(name <= p) :: t[p]
  }

  function Forget(t: Table, name: Labels): Update {
    if name == [] then Update(t, Some(Empty))
    else if !HasName(t, name) then Update(t, Some(NotAllocated))
    else Update(Prune(t, name), None)
  }

  // ---- what one insertion does ----

  lemma AppendInjective(p: Labels, l: Label, q: Labels, m: Label)
    ensures p + [l] == q + [m] <==> p == q && l == m
  {
    if p + [l] == q + [m] {
      assert (p + [l])[..|p|] == p && (q + [m])[..|q|] == q;
      assert (p + [l])[|p|] == l && (q + [m])[|q|] == m;
    }
  }

  predicate FreshNid(t: Table, at: Labels, nid: uint32)
  {
    nid != 0 && !NidTaken(t, at, nid)
  }

  lemma SiblingTakesNid(t: Table, at: Labels, l: Label)
    requires at + [l] in t
    ensures NidTaken(t, at, t[at + [l]].nid)
  {
    var p := at + [l];
    assert p in t && |p| == |at| + 1 && p[..|at|] == at;
  }

  lemma NotTaken(t: Table, at: Labels, nid: uint32)
    requires forall l: Label {:trigger at + [l]} :: at + [l] in t ==> t[at + [l]].nid != nid
    ensures !NidTaken(t, at, nid)
  {
    forall p | p in t && |p| == |at| + 1 && p[..|at|] == at
      ensures t[p].nid != nid
    {
      assert p == at + [p[|at|]];
    }
  }

  ghost predicate ChildrenBelow(t: Table, at: Labels, bound: int) {
    forall l: Label {:trigger at + [l]} :: at + [l] in t ==> t[at + [l]].nid < bound
  }

  /** The counter of this node is ahead of all its children. */
  ghost predicate Ahead(t: Table, p: Labels)
    requires p in t
  {
    ChildrenBelow(t, p, Bound(t[p].next))
  }

  lemma InsertKeepsNumbering(t: Table, at: Labels, l: Label, nid: uint32, next: uint32)
    requires WellNumbered(t) && at in t && at + [l] !in t && |at| < MAX_DEPTH && FreshNid(t, at, nid)
    ensures WellNumbered(Insert(t, at, l, nid, next))
  {
    var t' := Insert(t, at, l, nid, next);
    forall p: Labels, m: Label {:trigger p + [m]} | p + [m] in t'
      ensures p in t' && 0 < t'[p + [m]].nid
    {
      AppendInjective(p, m, at, l);
    }
    forall p: Labels, m: Label, m': Label {:trigger p + [m], p + [m']}
      | p + [m] in t' && p + [m'] in t' && t'[p + [m]].nid == t'[p + [m']].nid
      ensures m == m'
    {
      AppendInjective(p, m, at, l);
      AppendInjective(p, m', at, l);
      if p == at && m != m' {
        if m == l {
          SiblingTakesNid(t, at, m');
        } else if m' == l {
          SiblingTakesNid(t, at, m);
        }
      }
    }
  }

  lemma InsertKeepsInv(t: Table, at: Labels, l: Label, nid: uint32, next: uint32)
    requires TableInv(t) && at in t && at + [l] !in t && |at| < MAX_DEPTH
    requires FreshNid(t, at, nid) && nid < Bound(next) && ChildrenBelow(t, at, Bound(next))
    ensures TableInv(Insert(t, at, l, nid, next))
  {
    InsertKeepsNumbering(t, at, l, nid, next);
    var t' := Insert(t, at, l, nid, next);
    forall p: Labels, m: Label {:trigger p + [m]} | p + [m] in t' && p in t'
      ensures t'[p + [m]].nid < Bound(t'[p].next)
    {
      AppendInjective(p, m, at, l);
    }
  }

  /** What later insertions leave alone: every node stays, with its identifier. */
  predicate Extends(t: Table, t': Table) {
    forall p :: p in t ==> p in t' && t'[p].nid == t[p].nid
  }

  lemma {:induction false} ExtendsKeepsPath(t: Table, t': Table, at: Labels, rest: Labels)
    requires Extends(t, t') && Live(t, at, rest)
    ensures Live(t', at, rest) && PathFrom(t', at, rest) == PathFrom(t, at, rest)
    decreases |rest|
  {
    if rest != [] {
      ExtendsKeepsPath(t, t', at + [rest[0]], rest[1..]);
    }
  }

  /** Nothing but prefixes of one name is new. */
  predicate AddsOnly(t: Table, t': Table, name: Labels) {
    forall p :: p in t' && p !in t ==> p <= name
  }

  lemma CounterIsFresh(t: Table, at: Labels)
    requires TableInv(t) && at in t && t[at].next != 0
    ensures FreshNid(t, at, t[at].next)
  {
    NotTaken(t, at, t[at].next);
  }

  /** A new node is empty, so below it nothing can fail. */
  lemma {:induction false} AllocateBelowNewNode(t: Table, at: Labels, rest: Labels)
    requires at in t && t[at].next == 1 && forall p :: p in t && at <= p ==> p == at
    ensures AllocateFrom(t, at, rest).error.None?
    decreases |rest|
  {
    if rest != [] {
      assert at <= at + [rest[0]];
      var t' := Insert(t, at, rest[0], 1, 2);
      var at' := at + [rest[0]];
      forall p | p in t' && at' <= p
        ensures p == at'
      {
        assert at == at'[..|at|];
      }
      AllocateBelowNewNode(t', at', rest[1..]);
    }
  }

  /** While every counter is ahead of its children, allocation keeps it so. */
  lemma {:induction false} AllocateKeepsInv(t: Table, at: Labels, rest: Labels)
    requires TableInv(t) && at in t && |at + rest| <= MAX_DEPTH
    ensures TableInv(AllocateFrom(t, at, rest).table)
    decreases |rest|
  {
    if rest != [] {
      Regroup(at, rest);
      var at' := at + [rest[0]];
      if at' in t {
        AllocateKeepsInv(t, at', rest[1..]);
      } else if t[at].next != 0 {
        var next := (t[at].next + 1) % TWO32;
        CounterIsFresh(t, at);
        InsertKeepsInv(t, at, rest[0], t[at].next, next);
        AllocateKeepsInv(Insert(t, at, rest[0], t[at].next, next), at', rest[1..]);
      }
    }
  }

  // ---- allocation when a counter has fallen behind ----

  /** The first level to be created gets a number that no sibling has. */
  predicate SafeToAllocateFrom(t: Table, at: Labels, rest: Labels)
    requires at in t
    decreases |rest|
  {
    if rest == [] then true
    else if at + [rest[0]] in t then SafeToAllocateFrom(t, at + [rest[0]], rest[1..])
    else t[at].next == 0 || !NidTaken(t, at, t[at].next)
  }

  predicate SafeToAllocate(t: Table, name: Labels)
    requires [] in t
  {
    0 < |name| <= MAX_DEPTH ==> SafeToAllocateFrom(t, [], name)
  }

  /** Whatever the counters are, allocation keeps every earlier assignment and adds only levels of the name. */
  lemma {:induction false} AllocateExtends(t: Table, at: Labels, rest: Labels)
    requires at in t
    ensures var u := AllocateFrom(t, at, rest);
            && (u.error.None? ==> Live(u.table, at, rest))
            && Extends(t, u.table) && AddsOnly(t, u.table, at + rest)
    decreases |rest|
  {
    if rest != [] {
      Regroup(at, rest);
      var at' := at + [rest[0]];
      assert at' <= at + rest;
      if at' in t {
        AllocateExtends(t, at', rest[1..]);
      } else if t[at].next != 0 {
        AllocateExtends(Insert(t, at, rest[0], t[at].next, (t[at].next + 1) % TWO32), at', rest[1..]);
      }
    }
  }

  lemma NothingBelow(t: Table, at: Labels)
    requires WellNumbered(t) && at !in t
    ensures forall p :: p in t ==> !(at <= p)
  {
    forall p | p in t && at <= p
      ensures false
    {
      assert p == at + p[|at|..];
      AncestorsExist(t, at, p[|at|..]);
    }
  }

  /** The node a descent has just created has nothing below it. */
  lemma NewNodeIsBare(t: Table, at: Labels, l: Label, nid: uint32, next: uint32)
    requires WellNumbered(t) && at in t && at + [l] !in t
    ensures forall p :: p in Insert(t, at, l, nid, next) && at + [l] <= p ==> p == at + [l]
  {
    NothingBelow(t, at + [l]);
    assert |at + [l]| == |at| + 1;
  }

  lemma BareIsSafe(t: Table, at: Labels, rest: Labels)
    requires at in t && forall p :: p in t && at <= p ==> p == at
    ensures SafeToAllocateFrom(t, at, rest)
  {
    forall l: Label {:trigger at + [l]}
      ensures at + [l] !in t
    {
      assert at <= at + [l];
    }
    NotTaken(t, at, t[at].next);
  }

  lemma SameNumberTwice(t: Table, p: Labels, l: Label, m: Label)
    requires p + [l] in t && p + [m] in t && t[p + [l]].nid == t[p + [m]].nid && l != m
    ensures !WellNumbered(t)
  {
  }

  lemma TakenBy(t: Table, at: Labels, nid: uint32) returns (l: Label)
    requires NidTaken(t, at, nid)
    ensures at + [l] in t && t[at + [l]].nid == nid
  {
    var p :| p in t && |p| == |at| + 1 && p[..|at|] == at && t[p].nid == nid;
    l := p[|at|];
    assert p == at + [l];
  }

  /** A number that a sibling has is handed out a second time, and stays with both. */
  lemma UnsafeLevelRepeats(t: Table, at: Labels, rest: Labels)
    requires at in t && rest != [] && at + [rest[0]] !in t && t[at].next != 0 && NidTaken(t, at, t[at].next)
    ensures !WellNumbered(AllocateFrom(t, at, rest).table)
  {
    var l := TakenBy(t, at, t[at].next);
    var t' := Insert(t, at, rest[0], t[at].next, (t[at].next + 1) % TWO32);
    AppendInjective(at, l, at, rest[0]);
    assert |at + [l]| != |at|;
    AllocateExtends(t', at + [rest[0]], rest[1..]);
    SameNumberTwice(AllocateFrom(t, at, rest).table, at, l, rest[0]);
  }

  /** A name keeps siblings apart exactly when its first new level is safe; a refused one changes nothing. */
  lemma {:induction false} AllocateKeepsNumberingIff(t: Table, at: Labels, rest: Labels)
    requires WellNumbered(t) && at in t && |at + rest| <= MAX_DEPTH
    ensures var u := AllocateFrom(t, at, rest);
            && (WellNumbered(u.table) <==> SafeToAllocateFrom(t, at, rest))
            && (u.error.Some? ==> u.table == t)
    decreases |rest|
  {
    if rest != [] {
      Regroup(at, rest);
      var at' := at + [rest[0]];
      if at' in t {
        AllocateKeepsNumberingIff(t, at', rest[1..]);
      } else if t[at].next != 0 {
        var next := (t[at].next + 1) % TWO32;
        var t' := Insert(t, at, rest[0], t[at].next, next);
        NewNodeIsBare(t, at, rest[0], t[at].next, next);
        AllocateBelowNewNode(t', at', rest[1..]);
        if NidTaken(t, at, t[at].next) {
          UnsafeLevelRepeats(t, at, rest);
        } else {
          InsertKeepsNumbering(t, at, rest[0], t[at].next, next);
          BareIsSafe(t', at', rest[1..]);
          AllocateKeepsNumberingIff(t', at', rest[1..]);
        }
      }
    }
  }

  /** No counter that was ahead falls behind, and no new one is. */
  ghost predicate KeepsAhead(t: Table, t': Table) {
    forall p :: p in t' ==> Ahead(t', p) || (p in t && !Ahead(t, p))
  }

  lemma InsertKeepsAhead(t: Table, at: Labels, l: Label)
    requires WellNumbered(t) && at in t && at + [l] !in t && t[at].next != 0
    ensures KeepsAhead(t, Insert(t, at, l, t[at].next, (t[at].next + 1) % TWO32))
  {
    var next := (t[at].next + 1) % TWO32;
    var t' := Insert(t, at, l, t[at].next, next);
    NewNodeIsBare(t, at, l, t[at].next, next);
    assert |at + [l]| == |at| + 1;
    forall p | p in t'
      ensures Ahead(t', p) || (p in t && !Ahead(t, p))
    {
      forall m: Label {:trigger p + [m]}
        ensures p + [m] in t' ==> p + [m] in t || (p == at && m == l)
        ensures p == at + [l] ==> p + [m] !in t'
      {
        AppendInjective(p, m, at, l);
        assert p <= p + [m];
      }
    }
  }

  lemma {:induction false} AllocateKeepsAhead(t: Table, at: Labels, rest: Labels)
    requires WellNumbered(t) && at in t && |at + rest| <= MAX_DEPTH && SafeToAllocateFrom(t, at, rest)
    ensures KeepsAhead(t, AllocateFrom(t, at, rest).table)
    decreases |rest|
  {
    if rest != [] {
      Regroup(at, rest);
      var at' := at + [rest[0]];
      if at' in t {
        AllocateKeepsAhead(t, at', rest[1..]);
      } else if t[at].next != 0 {
        var next := (t[at].next + 1) % TWO32;
        var t' := Insert(t, at, rest[0], t[at].next, next);
        InsertKeepsAhead(t, at, rest[0]);
        InsertKeepsNumbering(t, at, rest[0], t[at].next, next);
        NewNodeIsBare(t, at, rest[0], t[at].next, next);
        BareIsSafe(t', at', rest[1..]);
        AllocateKeepsAhead(t', at', rest[1..]);
      }
    }
  }

  /**
   * Allocate either gives the name a path, keeping every assignment made before and adding
   * only levels of that name, or changes nothing at all. Siblings stay apart exactly when the
   * first new level is safe, as every allocation is while all counters are ahead.
   */
  lemma AllocateIsAllOrNothing(t: Table, name: Labels)
    requires WellNumbered(t)
    ensures var u := Allocate(t, name);
            && (TableInv(t) ==> TableInv(u.table))
            && (WellNumbered(u.table) <==> SafeToAllocate(t, name))
            && (u.error.Some? ==> u.table == t)
            && (u.error.None? ==> HasName(u.table, name) && Resolve(u.table, name) == Ok(PathOf(u.table, name)))
            && (forall n :: HasName(t, n) ==> HasName(u.table, n) && PathOf(u.table, n) == PathOf(t, n))
            && AddsOnly(t, u.table, name)
  {
    var u := Allocate(t, name);
    if 0 < |name| <= MAX_DEPTH {
      AllocateExtends(t, [], name);
      assert [] + name == name;
      AllocateKeepsNumberingIff(t, [], name);
      if TableInv(t) {
        AllocateKeepsInv(t, [], name);
      }
    }
    forall n | HasName(t, n)
      ensures HasName(u.table, n) && PathOf(u.table, n) == PathOf(t, n)
    {
      ExtendsKeepsPath(t, u.table, [], n);
    }
  }

  /** Allocating a name again changes nothing and gives the same path. */
  lemma {:induction false} AllocateTwice(t: Table, at: Labels, rest: Labels)
    requires at in t && Live(t, at, rest)
    ensures AllocateFrom(t, at, rest) == Update(t, None)
    decreases |rest|
  {
    if rest != [] {
      AllocateTwice(t, at + [rest[0]], rest[1..]);
    }
  }

  lemma {:induction false} AllocateChild(t: Table, at: Labels, rest: Labels, l: Label)
    requires at in t && Live(t, at, rest) && at + rest in t && at + rest + [l] !in t && t[at + rest].next != 0
    ensures var n := t[at + rest].next;
            AllocateFrom(t, at, rest + [l]) == Update(Insert(t, at + rest, l, n, (n + 1) % TWO32), None)
    decreases |rest|
  {
    if rest == [] {
      assert rest + [l] == [l] && [l][1..] == [] && at + rest == at;
    } else {
      Regroup(at, rest);
      assert (rest + [l])[0] == rest[0] && (rest + [l])[1..] == rest[1..] + [l];
      AllocateChild(t, at + [rest[0]], rest[1..], l);
    }
  }

  /** The next child of a live node gets the identifier its counter stands at. */
  lemma NextChild(t: Table, p: Labels, l: Label)
    requires HasName(t, p) && [] in t && p in t && p + [l] !in t && t[p].next != 0 && |p| < MAX_DEPTH
    ensures Bears(Allocate(t, p + [l]).table, p + [l], PathOf(t, p) + [t[p].next])
  {
    assert [] + p == p;
    AllocateChild(t, [], p, l);
    var t' := Insert(t, p, l, t[p].next, (t[p].next + 1) % TWO32);
    ExtendsKeepsPath(t, t', [], p);
    ChildBears(t', p, l, PathOf(t, p));
  }
}
