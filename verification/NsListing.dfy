/** The published listing of a tree: one line for every name, in the order of the names. */
module NsListing {
  import opened Basics
  import opened Names
  import opened NsTable

  datatype Line = Line(name: string, path: Path)

  /** Every label in the table is one that splitting a name can produce. */
  predicate WellNamed(t: Table) {
    forall p :: p in t ==> GoodLabels(p)
  }

  predicate IsLine(t: Table, name: Labels, e: Line) {
    name != [] && HasName(t, name) && e == Line(NameOf(name), PathOf(t, name))
  }

  // ---- the order of strings ----

  predicate Less(a: string, b: string) {
    b != [] && (a == [] || a[0] < b[0] || (a[0] == b[0] && Less(a[1..], b[1..])))
  }

  lemma {:induction false} LessIsTransitive(a: string, b: string, c: string)
    requires Less(a, b) && Less(b, c)
    ensures Less(a, c)
  {
    if a != [] && a[0] == b[0] && b[0] == c[0] {
      LessIsTransitive(a[1..], b[1..], c[1..]);
    }
  }

  lemma {:induction false} LessIsTotal(a: string, b: string)
    requires a != b
    ensures Less(a, b) <==> !Less(b, a)
  {
    if a != [] && b != [] && a[0] == b[0] {
      assert a == [a[0]] + a[1..] && b == [b[0]] + b[1..];
      LessIsTotal(a[1..], b[1..]);
    }
  }

  lemma {:induction false} LessIsIrreflexive(a: string)
    ensures !Less(a, a)
  {
    if a != [] {
      LessIsIrreflexive(a[1..]);
    }
  }

  ghost predicate Sorted(ls: seq<Line>) {
    forall i, j :: 0 <= i < j < |ls| ==> Less(ls[i].name, ls[j].name)
  }

  /** The lines of all names and no others, in order. */
  ghost predicate IsListing(t: Table, ls: seq<Line>) {
    && Sorted(ls)
    && (forall name :: HasName(t, name) && name != [] ==> Line(NameOf(name), PathOf(t, name)) in ls)
    && (forall e :: e in ls ==> Listed(t, e))
  }

  ghost predicate Listed(t: Table, e: Line) {
    exists name :: IsLine(t, name, e)
  }

  // ---- a sorted list is determined by its elements ----

  lemma LeastFirst(a: seq<Line>, b: seq<Line>)
    requires Sorted(a) && Sorted(b) && a != [] && b != []
    requires a[0] in b && b[0] in a
    ensures a[0] == b[0]
  {
    var i :| 0 <= i < |b| && b[i] == a[0];
    var j :| 0 <= j < |a| && a[j] == b[0];
    if i > 0 && j > 0 {
      assert Less(b[0].name, a[0].name) && Less(a[0].name, b[0].name);
      LessIsTransitive(a[0].name, b[0].name, a[0].name);
      LessIsIrreflexive(a[0].name);
    }
  }

  lemma {:induction false} SortedIsUnique(a: seq<Line>, b: seq<Line>)
    requires Sorted(a) && Sorted(b) && forall e :: e in a <==> e in b
    ensures a == b
  {
    assert (a != [] ==> a[0] in a) && (b != [] ==> b[0] in b);
    if a != [] && b != [] {
      LeastFirst(a, b);
      forall e
        ensures e in a[1..] <==> e in a && e != a[0]
        ensures e in b[1..] <==> e in b && e != b[0]
      {
        TailWithoutHead(a, e);
        TailWithoutHead(b, e);
      }
      SortedIsUnique(a[1..], b[1..]);
      assert a == [a[0]] + a[1..] && b == [b[0]] + b[1..];
    }
  }

  lemma TailWithoutHead(a: seq<Line>, e: Line)
    requires Sorted(a) && a != []
    ensures e in a[1..] <==> e in a && e != a[0]
  {
    LessIsIrreflexive(a[0].name);
    if e in a && e != a[0] {
      var i :| 0 <= i < |a| && a[i] == e;
      assert a[1..][i - 1] == e;
    }
  }

  /**
   * The listing depends only on what the names resolve to: not on counters, not on the order
   * of allocations and not on the order in which the program's maps are traversed.
   */
  lemma ListingIsCanonical(t1: Table, t2: Table, a: seq<Line>, b: seq<Line>)
    requires forall name :: Resolve(t1, name) == Resolve(t2, name)
    requires IsListing(t1, a) && IsListing(t2, b)
    ensures a == b
  {
    forall e
      ensures e in a ==> e in b
      ensures e in b ==> e in a
    {
      SameLines(t1, t2, a, b, e);
      SameLines(t2, t1, b, a, e);
    }
    SortedIsUnique(a, b);
  }

  lemma SameLines(t1: Table, t2: Table, a: seq<Line>, b: seq<Line>, e: Line)
    requires forall name :: Resolve(t1, name) == Resolve(t2, name)
    requires IsListing(t1, a) && IsListing(t2, b)
    ensures e in a ==> e in b
  {
    if e in a {
      assert Listed(t1, e);
      var name :| IsLine(t1, name, e);
      assert Resolve(t2, name) == Ok(PathOf(t1, name));
    }
  }

  // ---- sorting ----

  function InsertLine(ls: seq<Line>, e: Line): seq<Line> {
    if ls == [] || Less(e.name, ls[0].name) then [e] + ls else [ls[0]] + InsertLine(ls[1..], e)
  }

  lemma {:induction false} InsertHolds(ls: seq<Line>, e: Line, x: Line)
    ensures x in InsertLine(ls, e) <==> x == e || x in ls
  {
    if ls != [] && !Less(e.name, ls[0].name) {
      InsertHolds(ls[1..], e, x);
      assert ls == [ls[0]] + ls[1..];
    }
  }

  lemma {:induction false} InsertKeepsSorted(ls: seq<Line>, e: Line)
    requires Sorted(ls) && forall x :: x in ls ==> x.name != e.name
    ensures Sorted(InsertLine(ls, e))
  {
    if ls != [] {
      if Less(e.name, ls[0].name) {
        forall j | 0 < j < |ls|
          ensures Less(e.name, ls[j].name)
        {
          LessIsTransitive(e.name, ls[0].name, ls[j].name);
        }
      } else {
        LessIsTotal(e.name, ls[0].name);
        InsertKeepsSorted(ls[1..], e);
        var rest := InsertLine(ls[1..], e);
        forall j | 0 <= j < |rest|
          ensures Less(ls[0].name, rest[j].name)
        {
          InsertHolds(ls[1..], e, rest[j]);
          if rest[j] in ls[1..] {
            var k :| 0 <= k < |ls[1..]| && ls[1..][k] == rest[j];
            assert ls[k + 1] == rest[j];
          }
        }
      }
    }
  }

  /** No line stands before one with a smaller name. */
  ghost predicate InOrder(ls: seq<Line>) {
    forall i, j :: 0 <= i < j < |ls| ==> !Less(ls[j].name, ls[i].name)
  }

  lemma {:induction false} InsertKeepsLines(ls: seq<Line>, e: Line)
    ensures multiset(InsertLine(ls, e)) == multiset(ls) + multiset{e}
  {
    if ls != [] && !Less(e.name, ls[0].name) {
      assert ls == [ls[0]] + ls[1..];
      InsertKeepsLines(ls[1..], e);
    }
  }

  lemma {:induction false} InsertKeepsOrder(ls: seq<Line>, e: Line)
    requires InOrder(ls)
    ensures InOrder(InsertLine(ls, e))
  {
    if ls != [] && !Less(e.name, ls[0].name) {
      InsertKeepsOrder(ls[1..], e);
      var rest := InsertLine(ls[1..], e);
      forall j | 0 <= j < |rest|
        ensures !Less(rest[j].name, ls[0].name)
      {
        InsertHolds(ls[1..], e, rest[j]);
        if rest[j] in ls[1..] {
          var k :| 0 <= k < |ls[1..]| && ls[1..][k] == rest[j];
          assert ls[k + 1] == rest[j];
        }
      }
    } else if ls != [] {
      LessGoesFirst(ls, e);
    }
  }

  lemma LessGoesFirst(ls: seq<Line>, e: Line)
    requires InOrder(ls) && ls != [] && Less(e.name, ls[0].name)
    ensures InOrder([e] + ls)
  {
    LessIsIrreflexive(e.name);
    forall j | 0 <= j < |ls|
      ensures !Less(ls[j].name, e.name)
    {
      if Less(ls[j].name, e.name) {
        LessIsTransitive(ls[j].name, e.name, ls[0].name);
        if j == 0 {
          LessIsIrreflexive(ls[0].name);
        }
      }
    }
  }

  ghost predicate NamesDistinct(ls: seq<Line>) {
    forall i, j :: 0 <= i < j < |ls| ==> ls[i].name != ls[j].name
  }

  /** The library's sort, as an insertion sort. */
  method SortByName(ls: seq<Line>) returns (out: seq<Line>)
    ensures InOrder(out) && multiset(out) == multiset(ls)
    ensures NamesDistinct(ls) ==> Sorted(out) && forall e :: e in out <==> e in ls
  {
    out := [];
    for i := 0 to |ls|
      invariant InOrder(out) && multiset(out) == multiset(ls[..i])
      invariant NamesDistinct(ls) ==> Sorted(out)
      invariant forall e :: e in out <==> e in ls[..i]
    {
      assert ls[..i + 1] == ls[..i] + [ls[i]];
      forall e
        ensures e in InsertLine(out, ls[i]) <==> e in ls[..i + 1]
      {
        InsertHolds(out, ls[i], e);
      }
      InsertKeepsOrder(out, ls[i]);
      InsertKeepsLines(out, ls[i]);
      if NamesDistinct(ls) {
        InsertKeepsSorted(out, ls[i]);
      }
      out := InsertLine(out, ls[i]);
    }
    assert ls[..|ls|] == ls;
  }

  // ---- what the walk writes for a node ----

  /** A node has a line of its own unless its label is empty, as that of the root is. */
  predicate Named(name: Labels) {
    name != [] && name[|name| - 1] != ""
  }

  /** The labels written for a node: those of the levels that are named. */
  function Shown(name: Labels): Labels {
    if name == [] then []
    else Shown(name[..|name| - 1]) + if Named(name) then [name[|name| - 1]] else []
  }

  /** The identifiers written for a node: those of the same levels. */
  function ShownPath(t: Table, name: Labels): Path {
    if name == [] then []
    else ShownPath(t, name[..|name| - 1]) + if Named(name) && name in t then [t[name].nid] else []
  }

  /** Where every label is well formed, all levels are named, and the line has the name and its path. */
  lemma {:induction false} AllIsShown(t: Table, name: Labels)
    requires WellNumbered(t) && name in t && GoodLabels(name)
    ensures Shown(name) == name && HasName(t, name) && ShownPath(t, name) == PathOf(t, name)
    decreases |name|
  {
    NamesAreMembers(t, name);
    if name != [] {
      var k := |name| - 1;
      var p := name[..k];
      assert name == p + [name[k]] && GoodLabel(name[k]) && GoodLabels(p);
      AllIsShown(t, p);
      ChildBears(t, p, name[k], PathOf(t, p));
    }
  }

  // ---- collecting the lines of a subtree ----

  predicate IsWritten(t: Table, name: Labels, e: Line) {
    name in t && Named(name) && e == Line(NameOf(Shown(name)), ShownPath(t, name))
  }

  /** `out` holds one line for each of `names`. */
  predicate Collected(t: Table, names: seq<Labels>, out: seq<Line>) {
    && |names| == |out|
    && (forall i :: 0 <= i < |names| ==> IsWritten(t, names[i], out[i]))
    && (forall i, j :: 0 <= i < j < |names| ==> names[i] != names[j])
  }

  lemma CollectOne(t: Table, names: seq<Labels>, out: seq<Line>, name: Labels, e: Line)
    requires Collected(t, names, out) && name !in names && IsWritten(t, name, e)
    ensures Collected(t, names + [name], out + [e])
  {
  }

  predicate Under(t: Table, at: Labels, q: Labels) {
    q in t && at <= q && Named(q)
  }

  /** Under `at`, but not below one of the children that are left. */
  predicate Visited(t: Table, at: Labels, left: set<string>, q: Labels) {
    Under(t, at, q) && (q == at || q[|at|] !in left)
  }

  ghost predicate Covers(t: Table, at: Labels, left: set<string>, was: seq<Labels>, names: seq<Labels>) {
    forall q :: q in names <==> q in was || Visited(t, at, left, q)
  }

  lemma CoverStarts(t: Table, at: Labels, left: set<string>, was: seq<Labels>)
    requires WellNumbered(t) && at in t && forall l: string :: l in left <==> at + [l] in t
    ensures Covers(t, at, left, was, if Named(at) then was + [at] else was)
  {
    forall q | Under(t, at, q) && q != at
      ensures q[|at|] in left
    {
      assert q == at + [q[|at|]] + q[|at| + 1..];
      AncestorsExist(t, at + [q[|at|]], q[|at| + 1..]);
    }
  }

  lemma CoverGrows(t: Table, at: Labels, left: set<string>, l: string,
                   was: seq<Labels>, names: seq<Labels>, names': seq<Labels>)
    requires Covers(t, at, left, was, names) && l in left
    requires forall q :: q in names' <==> q in names || Under(t, at + [l], q)
    ensures Covers(t, at, left - {l}, was, names')
  {
    forall q
      ensures Visited(t, at, left - {l}, q) <==> Visited(t, at, left, q) || Under(t, at + [l], q)
    {
      ChildCovers(t, at, left, l, q);
    }
  }

  lemma ChildCovers(t: Table, at: Labels, left: set<string>, l: string, q: Labels)
    requires l in left
    ensures Visited(t, at, left - {l}, q) <==> Visited(t, at, left, q) || Under(t, at + [l], q)
    ensures Under(t, at + [l], q) ==> !Visited(t, at, left, q)
  {
    if at + [l] <= q {
      assert at == (at + [l])[..|at|] == q[..|at|];
    }
    if at <= q && q != at && q[|at|] == l {
      assert q[..|at| + 1] == at + [l];
    }
  }

  /** One line for every named node and no other line, in the order of the written names. */
  ghost predicate IsWalk(t: Table, out: seq<Line>) {
    InOrder(out) && exists names: seq<Labels>, ls: seq<Line> :: Permuted(t, names, ls, out)
  }

  ghost predicate Permuted(t: Table, names: seq<Labels>, ls: seq<Line>, out: seq<Line>) {
    Collected(t, names, ls) && (forall q :: q in names <==> Under(t, [], q)) && multiset(out) == multiset(ls)
  }

  /** A complete collection, sorted, is the listing. */
  lemma CollectionIsListing(t: Table, names: seq<Labels>, ls: seq<Line>, out: seq<Line>)
    requires WellNumbered(t) && WellNamed(t) && Collected(t, names, ls) && forall q :: q in names <==> Under(t, [], q)
    requires Sorted(out) && forall e :: e in out <==> e in ls
    ensures IsListing(t, out)
  {
    forall name | HasName(t, name) && name != []
      ensures Line(NameOf(name), PathOf(t, name)) in out
    {
      NamesAreMembers(t, name);
      AllIsShown(t, name);
      assert GoodLabel(name[|name| - 1]) && Under(t, [], name);
      var i :| 0 <= i < |names| && names[i] == name;
      assert IsWritten(t, name, ls[i]) && ls[i] in ls;
    }
    forall e | e in out
      ensures Listed(t, e)
    {
      var i :| 0 <= i < |ls| && ls[i] == e;
      assert IsWritten(t, names[i], e);
      AllIsShown(t, names[i]);
      assert IsLine(t, names[i], e);
    }
  }

  lemma CollectedNamesDiffer(t: Table, names: seq<Labels>, ls: seq<Line>)
    requires WellNumbered(t) && WellNamed(t) && Collected(t, names, ls)
    ensures NamesDistinct(ls)
  {
    forall i, j | 0 <= i < j < |ls|
      ensures ls[i].name != ls[j].name
    {
      assert IsWritten(t, names[i], ls[i]) && IsWritten(t, names[j], ls[j]);
      AllIsShown(t, names[i]);
      AllIsShown(t, names[j]);
      if ls[i].name == ls[j].name {
        NamesDiffer(names[i], names[j]);
      }
    }
  }
}
