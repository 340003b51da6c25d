/**
 * Several registries numbering one namespace: a parent grants its delegated zones their
 * prefixes, each child is seeded with the prefix it was granted, and all go on allocating.
 */
module Federation {
  import opened Basics
  import opened Delegations
  import opened Names
  import opened NsGraft
  import opened NsSnapshot
  import opened NsTable
  import opened Zone
  import opened ZoneLabels
  import P = NsPath

  // ---- prefixes ----

  datatype GrantError = NoZone | BadPath(path: NsError) | WrongDepth(got: nat, want: nat) | Refused(refusal: NsError)

  datatype Granting = Granting(table: Table, error: Option<GrantError>)

  /** Grafts a zone with the dotted prefix it was assigned. */
  function GrantPrefix(t: Table, zone: string, dotted: string): Granting
    requires [] in t
  {
    match P.Parse(dotted)
    case Err(e) => Granting(t, Some(BadPath(e)))
    case Ok(p) =>
      if |p| != Depth(zone) then Granting(t, Some(WrongDepth(|p|, Depth(zone))))
      else
        var u := Graft(t, SplitName(zone), p);
        Granting(u.table, if u.error.None? then None else Some(Refused(u.error.value)))
  }

  /** A registry without a prefix is the top of its hierarchy. */
  function SeedPrefix(t: Table, zone: string, dotted: string): Granting
    requires [] in t
  {
    if dotted == "" then Granting(t, None)
    else if zone == "" then Granting(t, Some(NoZone))
    else GrantPrefix(t, zone, dotted)
  }

  /** A delegation without a path is skipped; the first refusal ends the granting. */
  function GrantAll(t: Table, ds: seq<Delegation>): Granting
    requires [] in t
    decreases |ds|
  {
    if ds == [] then Granting(t, None)
    else if ds[0].path == "" then GrantAll(t, ds[1..])
    else
      var g := GrantPrefix(t, ds[0].zone, ds[0].path);
      if g.error.Some? then g
      else
        GrantKeepsRoot(t, ds[0].zone, ds[0].path);
        GrantAll(g.table, ds[1..])
  }

  /** The delegations that come with a prefix. */
  function WithPath(ds: seq<Delegation>): seq<Delegation> {
    if ds == [] then []
    else (if ds[0].path == "" then [] else [ds[0]]) + WithPath(ds[1..])
  }

  lemma {:induction false} WithPathKeeps(ds: seq<Delegation>, d: Delegation)
    ensures d in WithPath(ds) <==> d in ds && d.path != ""
  {
    if ds != [] {
      WithPathKeeps(ds[1..], d);
    }
  }

  lemma {:induction false} GrantAllSkips(t: Table, ds: seq<Delegation>)
    requires [] in t
    ensures GrantAll(t, WithPath(ds)) == GrantAll(t, ds)
    decreases |ds|
  {
    if ds != [] {
      if ds[0].path == "" {
        assert WithPath(ds) == WithPath(ds[1..]);
        GrantAllSkips(t, ds[1..]);
      } else {
        GrantKeepsRoot(t, ds[0].zone, ds[0].path);
        assert WithPath(ds)[1..] == WithPath(ds[1..]);
        GrantAllSkips(GrantPrefix(t, ds[0].zone, ds[0].path).table, ds[1..]);
      }
    }
  }

  lemma GrantKeepsRoot(t: Table, zone: string, dotted: string)
    requires [] in t
    ensures [] in GrantPrefix(t, zone, dotted).table
  {
    if P.Parse(dotted).Ok? {
      GraftKeepsRoot(t, SplitName(zone), P.Parse(dotted).value);
    }
  }

  lemma {:induction false} GrantAllKeepsRoot(t: Table, ds: seq<Delegation>)
    requires [] in t
    ensures [] in GrantAll(t, ds).table
    decreases |ds|
  {
    if ds != [] {
      if ds[0].path == "" {
        GrantAllKeepsRoot(t, ds[1..]);
      } else {
        GrantKeepsRoot(t, ds[0].zone, ds[0].path);
        if GrantPrefix(t, ds[0].zone, ds[0].path).error.None? {
          GrantAllKeepsRoot(GrantPrefix(t, ds[0].zone, ds[0].path).table, ds[1..]);
        }
      }
    }
  }

  /** A refused prefix leaves the table as it was, because a parsed prefix has no zero in it. */
  lemma RefusedGrantChangesNothing(t: Table, zone: string, dotted: string)
    requires WellNumbered(t) && GrantPrefix(t, zone, dotted).error.Some?
    ensures GrantPrefix(t, zone, dotted).table == t
  {
    if P.Parse(dotted).Ok? {
      var p, name := P.Parse(dotted).value, SplitName(zone);
      P.ParseExact(dotted, p);
      if 0 < |name| == |p| <= MAX_DEPTH {
        GraftIsAtomicIff(t, [], name, p);
        assert !LateZero(t, [], name, p);
      }
    }
  }

  // ---- numbering a name ----

  /** Only names of the own zone are numbered, and none in a branch that is delegated away. */
  function AllocateFor(t: Table, own: string, ds: seq<Delegation>, name: string): Table
    requires [] in t
  {
    if (own != "" && !Contains(own, name)) || Delegated(ds, name) then t
    else Allocate(t, SplitName(name)).table
  }

  lemma AllocateForExtends(t: Table, own: string, ds: seq<Delegation>, name: string)
    requires [] in t
    ensures var t' := AllocateFor(t, own, ds, name); Extends(t, t') && AddsOnly(t, t', SplitName(name))
  {
    var s := SplitName(name);
    if 0 < |s| <= MAX_DEPTH {
      AllocateExtends(t, [], s);
      assert [] + s == s;
    }
  }

  /** The table after any sequence of registrations. */
  function NumberAll(t: Table, own: string, ds: seq<Delegation>, names: seq<string>): (t': Table)
    requires [] in t
    ensures [] in t'
    decreases |names|
  {
    if names == [] then t
    else
      AllocateForExtends(t, own, ds, names[0]);
      NumberAll(AllocateFor(t, own, ds, names[0]), own, ds, names[1..])
  }

  // ---- the two sides of a delegation ----

  /** A zone that is delegated away: its text, its labels and its prefix belong together. */
  predicate GoodGrant(d: Delegation, zone: Labels, path: Path) {
    GoodZone(zone) && d.zone == NameOf(zone) && d.path != "" && P.Parse(d.path) == Ok(path)
  }

  ghost predicate Clear(t: Table, zone: Labels) {
    forall p :: p in t ==> !(zone < p)
  }

  /** The parent's side: the zone has its prefix, and nothing grows beneath it. */
  ghost predicate Reserved(t: Table, zone: Labels, path: Path) {
    [] in t && Bears(t, zone, path) && Clear(t, zone)
  }

  /** The child's side: the zone has its prefix, and nothing exists beside it. */
  ghost predicate Confined(t: Table, zone: Labels, path: Path) {
    Within(t, zone) && Bears(t, zone, path)
  }

  ghost predicate Within(t: Table, zone: Labels) {
    [] in t && forall p :: p in t ==> (p <= zone || zone <= p) && |p| <= MAX_DEPTH
  }

  lemma BothPrefixes<T>(a: seq<T>, b: seq<T>, s: seq<T>)
    ensures a <= s && b <= s ==> a <= b || b <= a
  {
  }

  lemma PrefixTrans<T>(a: seq<T>, b: seq<T>, c: seq<T>)
    ensures a <= b && b <= c ==> a <= c
  {
  }

  lemma ExtendsBears(t: Table, t': Table, name: Labels, path: Path)
    requires Extends(t, t') && Bears(t, name, path)
    ensures Bears(t', name, path)
  {
    ExtendsKeepsPath(t, t', [], name);
  }

  lemma NamedIsMember(t: Table, name: Labels)
    requires [] in t && HasName(t, name)
    ensures name in t
  {
    if name != [] {
      RootChild(t, name, |name| - 1);
      assert name[..|name| - 1 + 1] == name;
    }
  }

  /**
   * The text of the name contains the zone its labels put it in. "x.eng..com" does not: it
   * splits into the labels of x.eng.com, but as text it does not end in ".eng.com".
   */
  predicate Guarded(name: string) {
    var s := SplitName(name);
    |s| <= 1 || |s| > MAX_DEPTH || Contains(NameOf(s[..|s| - 1]), name)
  }

  lemma GuardedName(name: string, zone: Labels)
    requires Guarded(name) && GoodZone(zone) && zone < SplitName(name) && |SplitName(name)| <= MAX_DEPTH
    ensures Contains(NameOf(zone), name)
  {
    var s := SplitName(name);
    SplitNameIsGood(name);
    var z := s[..|s| - 1];
    assert GoodLabels(z) && zone <= z;
    PrefixContains(zone, z);
    ContainsIsTransitive(NameOf(zone), NameOf(z), name);
  }

  /** The loader refuses a delegation that is not strictly beneath the own zone. */
  predicate Beneath(ds: seq<Delegation>, own: string) {
    forall d :: d in ds ==> IsNarrower(d.zone, own)
  }

  /** The text of the name contains the zone of its labels, or does not lie in the own zone at all. */
  predicate Numberable(own: string, name: string) {
    Guarded(name) || !Contains(own, name)
  }

  /** Numbering such a name never creates a level beneath a zone that is delegated away. */
  lemma ParentKeeps(t: Table, own: string, ds: seq<Delegation>, name: string, d: Delegation, zone: Labels, path: Path)
    requires Reserved(t, zone, path) && d in ds && GoodZone(zone) && d.zone == NameOf(zone)
    requires Beneath(ds, own) && Numberable(own, name)
    ensures Reserved(AllocateFor(t, own, ds, name), zone, path)
  {
    var labels := SplitName(name);
    assert IsNarrower(d.zone, own);
    var t' := AllocateFor(t, own, ds, name);
    AllocateForExtends(t, own, ds, name);
    ExtendsBears(t, t', zone, path);
    if zone < labels && |labels| <= MAX_DEPTH && Guarded(name) {
      GuardedName(name, zone);
    }
    forall p | p in t'
      ensures !(zone < p)
    {
      PrefixTrans(zone, p, labels);
    }
  }

  /** Whatever is numbered or grafted beneath the zone leaves the child confined to it. */
  lemma StaysConfined(t: Table, t': Table, labels: Labels, zone: Labels, path: Path)
    requires Confined(t, zone, path) && Extends(t, t') && AddsOnly(t, t', labels) && zone <= labels
    requires |labels| <= MAX_DEPTH
    ensures Confined(t', zone, path)
  {
    ExtendsBears(t, t', zone, path);
    forall p | p in t'
      ensures (p <= zone || zone <= p) && |p| <= MAX_DEPTH
    {
      BothPrefixes(p, zone, labels);
    }
  }

  lemma ChildKeeps(t: Table, own: string, ds: seq<Delegation>, name: string, zone: Labels, path: Path)
    requires Confined(t, zone, path) && GoodZone(zone) && own == NameOf(zone)
    ensures Confined(AllocateFor(t, own, ds, name), zone, path)
  {
    ZoneText(zone);
    AllocateForExtends(t, own, ds, name);
    if Contains(own, name) && |SplitName(name)| <= MAX_DEPTH {
      ContainedHasPrefix(zone, name);
      StaysConfined(t, AllocateFor(t, own, ds, name), SplitName(name), zone, path);
    }
  }

  lemma {:induction false} ParentRuns(t: Table, own: string, ds: seq<Delegation>, names: seq<string>,
                                      d: Delegation, zone: Labels, path: Path)
    requires Reserved(t, zone, path) && d in ds && GoodZone(zone) && d.zone == NameOf(zone)
    requires Beneath(ds, own) && forall n :: n in names ==> Numberable(own, n)
    ensures Reserved(NumberAll(t, own, ds, names), zone, path)
    decreases |names|
  {
    if names != [] {
      ParentKeeps(t, own, ds, names[0], d, zone, path);
      ParentRuns(AllocateFor(t, own, ds, names[0]), own, ds, names[1..], d, zone, path);
    }
  }

  lemma {:induction false} ChildRuns(t: Table, own: string, ds: seq<Delegation>, names: seq<string>,
                                     zone: Labels, path: Path)
    requires Confined(t, zone, path) && GoodZone(zone) && own == NameOf(zone)
    ensures Confined(NumberAll(t, own, ds, names), zone, path)
    decreases |names|
  {
    if names != [] {
      ChildKeeps(t, own, ds, names[0], zone, path);
      ChildRuns(AllocateFor(t, own, ds, names[0]), own, ds, names[1..], zone, path);
    }
  }

  // ---- the numbers a registry hands out ----

  /** A place at which the registry may create names: inside its own zone and in no delegated one. */
  predicate Numbers(own: string, ds: seq<Delegation>, p: Labels) {
    GoodLabels(p) && Contains(own, NameOf(p)) && !Delegated(ds, NameOf(p))
  }

  /** Wherever the registry may create names, the counter is ahead of the numbers in use. */
  ghost predicate Sound(t: Table, own: string, ds: seq<Delegation>) {
    forall p :: p in t && Numbers(own, ds, p) ==> Ahead(t, p)
  }

  predicate AheadAt(t: Table, s: Labels, k: nat)
    requires k < |s|
  {
    s[..k] in t && s[..k + 1] !in t ==> t[s[..k]].next == 0 || !NidTaken(t, s[..k], t[s[..k]].next)
  }

  lemma {:induction false} SafeFromLevel(t: Table, s: Labels, i: nat)
    requires i <= |s| && s[..i] in t && forall k :: i <= k < |s| ==> AheadAt(t, s, k)
    ensures SafeToAllocateFrom(t, s[..i], s[i..])
    decreases |s| - i
  {
    if i < |s| {
      assert s[..i] + [s[i]] == s[..i + 1] && s[i..][0] == s[i] && s[i..][1..] == s[i + 1..];
      assert AheadAt(t, s, i);
      if s[..i + 1] in t {
        SafeFromLevel(t, s, i + 1);
      }
    }
  }

  lemma AheadIsNotTaken(t: Table, p: Labels)
    requires p in t && Ahead(t, p) && t[p].next != 0
    ensures !NidTaken(t, p, t[p].next)
  {
    NotTaken(t, p, t[p].next);
  }

  /** A name that is numbered can only grow at places where the registry numbers. */
  lemma GrowsInside(t: Table, own: string, ds: seq<Delegation>, name: string, zone: Labels, k: nat)
    requires WellNumbered(t) && zone in t && GoodZone(zone) && IsNarrower(NameOf(zone), own)
    requires Guarded(name) && Contains(own, name) && !Delegated(ds, name)
    requires k < |SplitName(name)| <= MAX_DEPTH && SplitName(name)[..k + 1] !in t
    ensures Numbers(own, ds, SplitName(name)[..k])
  {
    var s := SplitName(name);
    var o := NarrowerZone(zone, own);
    SplitNameIsGood(name);
    ContainedHasPrefix(o, name);
    PrefixExists(t, zone, o);
    if k < |o| {
      PrefixExists(t, o, s[..k + 1]);
    }
    var p := s[..k];
    assert GoodLabels(p) && GoodZone(p) && o <= p;
    PrefixContains(o, p);
    var above := s[..|s| - 1];
    assert p <= above && GoodLabels(above);
    PrefixContains(p, above);
    ContainsIsTransitive(NameOf(p), NameOf(above), name);
    if Delegated(ds, NameOf(p)) {
      var d :| d in ds && Contains(d.zone, NameOf(p));
      ContainsIsTransitive(d.zone, NameOf(p), name);
    }
  }

  lemma PrefixExists(t: Table, name: Labels, p: Labels)
    requires WellNumbered(t) && name in t && p <= name
    ensures p in t
  {
    assert name == p + name[|p|..];
    AncestorsExist(t, p, name[|p|..]);
  }

  lemma NumberedSafely(t: Table, own: string, ds: seq<Delegation>, name: string, zone: Labels)
    requires WellNumbered(t) && Sound(t, own, ds) && zone in t && GoodZone(zone) && IsNarrower(NameOf(zone), own)
    requires Guarded(name) && Contains(own, name) && !Delegated(ds, name)
    ensures SafeToAllocate(t, SplitName(name))
  {
    var s := SplitName(name);
    if 0 < |s| <= MAX_DEPTH {
      forall k | 0 <= k < |s|
        ensures AheadAt(t, s, k)
      {
        if s[..k] in t && s[..k + 1] !in t && t[s[..k]].next != 0 {
          GrowsInside(t, own, ds, name, zone, k);
          AheadIsNotTaken(t, s[..k]);
        }
      }
      SafeFromLevel(t, s, 0);
      assert s[..0] == [] && s[0..] == s;
    }
  }

  /** A registry whose counters are ahead where it numbers keeps them so, and its names apart. */
  lemma ParentNumbers(t: Table, own: string, ds: seq<Delegation>, name: string, zone: Labels)
    requires WellNumbered(t) && Sound(t, own, ds) && zone in t && GoodZone(zone) && IsNarrower(NameOf(zone), own)
    requires Numberable(own, name)
    ensures var t' := AllocateFor(t, own, ds, name); WellNumbered(t') && Sound(t', own, ds) && zone in t'
  {
    var s, t' := SplitName(name), AllocateFor(t, own, ds, name);
    AllocateForExtends(t, own, ds, name);
    if Contains(own, name) && !Delegated(ds, name) {
      NumberedSafely(t, own, ds, name, zone);
      AllocateIsAllOrNothing(t, s);
      if 0 < |s| <= MAX_DEPTH {
        assert [] + s == s;
        AllocateKeepsAhead(t, [], s);
      }
    }
  }

  lemma {:induction false} ParentNumbersAll(t: Table, own: string, ds: seq<Delegation>, names: seq<string>, zone: Labels)
    requires WellNumbered(t) && Sound(t, own, ds) && zone in t && GoodZone(zone) && IsNarrower(NameOf(zone), own)
    requires forall n :: n in names ==> Numberable(own, n)
    ensures WellNumbered(NumberAll(t, own, ds, names))
    decreases |names|
  {
    if names != [] {
      ParentNumbers(t, own, ds, names[0], zone);
      ParentNumbersAll(AllocateFor(t, own, ds, names[0]), own, ds, names[1..], zone);
    }
  }

  // ---- one numbering ----

  /** Between the two tables a name and a path determine each other. */
  ghost predicate Consistent(a: Table, b: Table) {
    forall m, n :: HasName(a, m) && HasName(b, n) ==> (PathOf(a, m) == PathOf(b, n) <==> m == n)
  }

  lemma PrefixPath(t: Table, name: Labels, path: Path, p: Labels)
    requires Bears(t, name, path) && p <= name
    ensures Bears(t, p, path[..|p|])
  {
    assert p == name[..|p|];
    RootPath(t, name, |p|);
  }

  /** What the child numbers lies under the prefix it was granted. */
  lemma BelowPrefix(c: Table, zone: Labels, path: Path, name: Labels)
    requires Bears(c, zone, path) && HasName(c, name) && zone <= name
    ensures path <= PathOf(c, name)
  {
    PrefixPath(c, name, PathOf(c, name), zone);
  }

  lemma ParentAndChild(a: Table, c: Table, zone: Labels, path: Path, m: Labels, n: Labels)
    requires WellNumbered(a) && Reserved(a, zone, path) && Confined(c, zone, path) && HasName(a, m) && HasName(c, n)
    ensures PathOf(a, m) == PathOf(c, n) <==> m == n
  {
    NamesAreMembers(a, m);
    AboveAndChild(a, c, zone, path, m, n);
  }

  /** A name that lies not beneath the zone, wherever it is numbered, against any name of the child. */
  lemma AboveAndChild(a: Table, c: Table, zone: Labels, path: Path, m: Labels, n: Labels)
    requires WellNumbered(a) && Bears(a, zone, path) && Confined(c, zone, path)
    requires HasName(a, m) && HasName(c, n) && !(zone < m)
    ensures PathOf(a, m) == PathOf(c, n) <==> m == n
  {
    NamedIsMember(c, n);
    if n <= zone {
      PrefixPath(c, zone, path, n);
      PrefixPath(a, zone, path, n);
      if PathOf(a, m) == PathOf(c, n) {
        PathsAreUnique(a, [], m, n);
      }
    } else {
      assert zone < n && m != n;
      BelowPrefix(c, zone, path, n);
      if PathOf(a, m) == PathOf(c, n) {
        RootPath(a, m, |zone|);
        PathsAreUnique(a, [], m[..|zone|], zone);
      }
    }
  }

  /** No name can be numbered in the second zone that is also beneath the first. */
  predicate Beside(z1: Labels, z2: Labels) {
    !(z1 <= z2) || |z1| >= MAX_DEPTH
  }

  /** Two children of one parent, with zones neither of which lies in the other. */
  lemma TwoChildren(a: Table, c1: Table, z1: Labels, p1: Path, c2: Table, z2: Labels, p2: Path, m: Labels, n: Labels)
    requires WellNumbered(a) && Bears(a, z1, p1) && Bears(a, z2, p2) && Beside(z1, z2) && Beside(z2, z1)
    requires Confined(c1, z1, p1) && Confined(c2, z2, p2) && HasName(c1, m) && HasName(c2, n)
    ensures PathOf(c1, m) == PathOf(c2, n) <==> m == n
  {
    NamedIsMember(c1, m);
    NamedIsMember(c2, n);
    NamesAreMembers(a, z1);
    NamesAreMembers(a, z2);
    if m <= z1 {
      PrefixPath(c1, z1, p1, m);
      PrefixPath(a, z1, p1, m);
      PrefixTrans(z2, m, z1);
      AboveAndChild(a, c2, z2, p2, m, n);
    } else if n <= z2 {
      PrefixPath(c2, z2, p2, n);
      PrefixPath(a, z2, p2, n);
      PrefixTrans(z1, n, z2);
      AboveAndChild(a, c1, z1, p1, n, m);
    } else {
      BelowPrefix(c1, z1, p1, m);
      BelowPrefix(c2, z2, p2, n);
      PrefixesApart(a, z1, p1, z2, p2);
      PrefixesApart(a, z2, p2, z1, p1);
      BothPrefixes(p1, p2, PathOf(c1, m));
      BothPrefixes(z1, z2, m);
    }
  }

  lemma PrefixesApart(a: Table, z1: Labels, p1: Path, z2: Labels, p2: Path)
    requires WellNumbered(a) && Bears(a, z1, p1) && Bears(a, z2, p2) && !(z1 <= z2)
    ensures !(p1 <= p2)
  {
    if p1 <= p2 {
      RootPath(a, z2, |z1|);
      PathsAreUnique(a, [], z2[..|z1|], z1);
    }
  }

  // ---- a whole federation ----

  lemma GrantWorks(t: Table, d: Delegation, zone: Labels, path: Path)
    requires WellNumbered(t) && GoodGrant(d, zone, path) && GrantPrefix(t, d.zone, d.path).error.None?
    ensures var t' := GrantPrefix(t, d.zone, d.path).table;
            && WellNumbered(t') && Bears(t', zone, path) && AddsOnly(t, t', zone)
            && forall n, p :: Bears(t, n, p) ==> Bears(t', n, p)
  {
    ZoneText(zone);
    GraftWorks(t, zone, path);
  }

  /** Granting one zone grows nothing beneath another that does not contain it. */
  lemma GrantLeavesClear(t: Table, d: Delegation, zone: Labels, path: Path, other: Labels)
    requires WellNumbered(t) && GoodGrant(d, zone, path) && GrantPrefix(t, d.zone, d.path).error.None?
    requires Clear(t, other) && (other == zone || Beside(other, zone))
    ensures Clear(GrantPrefix(t, d.zone, d.path).table, other)
  {
    var t' := GrantPrefix(t, d.zone, d.path).table;
    GrantWorks(t, d, zone, path);
    forall p | p in t'
      ensures !(other < p)
    {
      assert |p| <= MAX_DEPTH;
      PrefixTrans(other, p, zone);
    }
  }

  /** The delegations of one parent, with the labels and the prefix of each. */
  predicate Labelled(ds: seq<Delegation>, zones: seq<Labels>, paths: seq<Path>) {
    |zones| == |paths| == |ds| && forall i :: 0 <= i < |ds| ==> GrantAt(ds, zones, paths, i)
  }

  predicate GrantAt(ds: seq<Delegation>, zones: seq<Labels>, paths: seq<Path>, i: nat) {
    i < |ds| && i < |zones| && i < |paths| && GoodGrant(ds[i], zones[i], paths[i])
  }

  predicate Apart(zones: seq<Labels>) {
    forall i, j :: 0 <= i < |zones| && 0 <= j < |zones| && i != j ==> BesideAt(zones, i, j)
  }

  predicate BesideAt(zones: seq<Labels>, i: nat, j: nat) {
    i < |zones| && j < |zones| && Beside(zones[i], zones[j])
  }

  lemma LabelledTail(ds: seq<Delegation>, zones: seq<Labels>, paths: seq<Path>)
    requires Labelled(ds, zones, paths) && ds != []
    ensures Labelled(ds[1..], zones[1..], paths[1..]) && GoodGrant(ds[0], zones[0], paths[0])
  {
    assert GrantAt(ds, zones, paths, 0);
    forall i | 0 <= i < |ds[1..]|
      ensures GrantAt(ds[1..], zones[1..], paths[1..], i)
    {
      assert GrantAt(ds, zones, paths, i + 1);
    }
  }

  predicate NoneBelow(zone: Labels, zones: seq<Labels>) {
    forall z :: z in zones ==> Beside(zone, z) && Beside(z, zone)
  }

  lemma NoneBelowTail(zone: Labels, zones: seq<Labels>)
    requires NoneBelow(zone, zones) && zones != []
    ensures Beside(zone, zones[0]) && NoneBelow(zone, zones[1..])
  {
    assert zones[0] in zones;
    forall z | z in zones[1..]
      ensures z in zones
    {
    }
  }

  lemma ApartFromRest(zones: seq<Labels>)
    requires zones != [] && Apart(zones)
    ensures NoneBelow(zones[0], zones[1..]) && Apart(zones[1..])
  {
    forall z | z in zones[1..]
      ensures Beside(zones[0], z) && Beside(z, zones[0])
    {
      var i :| 0 <= i < |zones[1..]| && zones[1..][i] == z;
      assert z == zones[i + 1];
      assert BesideAt(zones, 0, i + 1) && BesideAt(zones, i + 1, 0);
    }
    forall i, j | 0 <= i < |zones[1..]| && 0 <= j < |zones[1..]| && i != j
      ensures BesideAt(zones[1..], i, j)
    {
      assert BesideAt(zones, i + 1, j + 1);
    }
  }

  lemma {:induction false} GrantsKeep(t: Table, ds: seq<Delegation>, zones: seq<Labels>, paths: seq<Path>,
                                      zone: Labels, path: Path)
    requires WellNumbered(t) && Labelled(ds, zones, paths) && GrantAll(t, ds).error.None?
    requires Bears(t, zone, path) && Clear(t, zone) && NoneBelow(zone, zones)
    ensures Reserved(GrantAll(t, ds).table, zone, path)
    decreases |ds|
  {
    if ds != [] {
      LabelledTail(ds, zones, paths);
      NoneBelowTail(zone, zones);
      var t' := GrantPrefix(t, ds[0].zone, ds[0].path).table;
      GrantWorks(t, ds[0], zones[0], paths[0]);
      GrantLeavesClear(t, ds[0], zones[0], paths[0], zone);
      GrantsKeep(t', ds[1..], zones[1..], paths[1..], zone, path);
    }
  }

  ghost predicate AllClear(t: Table, zones: seq<Labels>) {
    forall z :: z in zones ==> Clear(t, z)
  }

  /** Grants of zones that do not nest, over a table with nothing beneath any of them. */
  ghost predicate Grantable(t: Table, ds: seq<Delegation>, zones: seq<Labels>, paths: seq<Path>) {
    && WellNumbered(t) && Labelled(ds, zones, paths) && Apart(zones)
    && GrantAll(t, ds).error.None? && AllClear(t, zones)
  }

  /** One grant keeps the others clear, and reserves its own zone once all are made. */
  lemma FirstGrant(t: Table, ds: seq<Delegation>, zones: seq<Labels>, paths: seq<Path>)
    requires Grantable(t, ds, zones, paths) && ds != []
    ensures var t' := GrantPrefix(t, ds[0].zone, ds[0].path).table;
            && WellNumbered(t') && AllClear(t', zones[1..]) && Bears(t', zones[0], paths[0])
            && Clear(t', zones[0])
  {
    LabelledTail(ds, zones, paths);
    ApartFromRest(zones);
    GrantWorks(t, ds[0], zones[0], paths[0]);
    GrantLeavesClear(t, ds[0], zones[0], paths[0], zones[0]);
    forall z | z in zones[1..]
      ensures Clear(GrantPrefix(t, ds[0].zone, ds[0].path).table, z)
    {
      assert z in zones;
      GrantLeavesClear(t, ds[0], zones[0], paths[0], z);
    }
  }

  lemma GrantStep(t: Table, ds: seq<Delegation>, zones: seq<Labels>, paths: seq<Path>)
    requires Grantable(t, ds, zones, paths) && ds != []
    ensures var t' := GrantPrefix(t, ds[0].zone, ds[0].path).table;
            Grantable(t', ds[1..], zones[1..], paths[1..]) && GrantAll(t, ds) == GrantAll(t', ds[1..])
  {
    FirstGrant(t, ds, zones, paths);
    LabelledTail(ds, zones, paths);
    ApartFromRest(zones);
  }

  lemma FirstReserved(t: Table, ds: seq<Delegation>, zones: seq<Labels>, paths: seq<Path>)
    requires Grantable(t, ds, zones, paths) && ds != []
    ensures Reserved(GrantAll(t, ds).table, zones[0], paths[0])
  {
    var t' := GrantPrefix(t, ds[0].zone, ds[0].path).table;
    FirstGrant(t, ds, zones, paths);
    LabelledTail(ds, zones, paths);
    ApartFromRest(zones);
    GrantsKeep(t', ds[1..], zones[1..], paths[1..], zones[0], paths[0]);
  }

  lemma {:induction false} GrantsReserve(t: Table, ds: seq<Delegation>, zones: seq<Labels>, paths: seq<Path>, k: nat)
    requires Grantable(t, ds, zones, paths) && k < |ds|
    ensures ReservedAt(GrantAll(t, ds).table, zones, paths, k)
    decreases |ds|
  {
    if k == 0 {
      FirstReserved(t, ds, zones, paths);
    } else {
      GrantStep(t, ds, zones, paths);
      GrantsReserve(GrantPrefix(t, ds[0].zone, ds[0].path).table, ds[1..], zones[1..], paths[1..], k - 1);
      ReservedLater(GrantAll(t, ds).table, zones, paths, k - 1);
    }
  }

  ghost predicate ReservedAt(a: Table, zones: seq<Labels>, paths: seq<Path>, k: nat) {
    k < |zones| && k < |paths| && Reserved(a, zones[k], paths[k])
  }

  lemma ReservedLater(a: Table, zones: seq<Labels>, paths: seq<Path>, k: nat)
    requires zones != [] && paths != [] && ReservedAt(a, zones[1..], paths[1..], k)
    ensures ReservedAt(a, zones, paths, k + 1)
  {
  }

  lemma {:induction false} GrantsKeepNumbering(t: Table, ds: seq<Delegation>, zones: seq<Labels>, paths: seq<Path>)
    requires WellNumbered(t) && Labelled(ds, zones, paths) && GrantAll(t, ds).error.None?
    ensures WellNumbered(GrantAll(t, ds).table)
    decreases |ds|
  {
    if ds != [] {
      LabelledTail(ds, zones, paths);
      GrantWorks(t, ds[0], zones[0], paths[0]);
      GrantsKeepNumbering(GrantPrefix(t, ds[0].zone, ds[0].path).table, ds[1..], zones[1..], paths[1..]);
    }
  }

  /** Every grant is safe when it is made. */
  ghost predicate SafeGrants(t: Table, ds: seq<Delegation>)
    requires [] in t
    decreases |ds|
  {
    if ds == [] then true
    else if ds[0].path == "" || P.Parse(ds[0].path).Err? then SafeGrants(t, ds[1..])
    else
      SafeToGraft(t, SplitName(ds[0].zone), P.Parse(ds[0].path).value)
      && (GrantKeepsRoot(t, ds[0].zone, ds[0].path);
          SafeGrants(GrantPrefix(t, ds[0].zone, ds[0].path).table, ds[1..]))
  }

  lemma InvIsSound(t: Table, own: string, ds: seq<Delegation>)
    requires TableInv(t)
    ensures Sound(t, own, ds)
  {
  }

  /** Then no counter falls behind, and the parent numbers soundly wherever it may. */
  lemma SafeGrantsAreSound(t: Table, own: string, ds: seq<Delegation>)
    requires TableInv(t) && SafeGrants(t, ds) && GrantAll(t, ds).error.None?
    ensures TableInv(GrantAll(t, ds).table) && Sound(GrantAll(t, ds).table, own, ds)
  {
    SafeGrantsKeepInv(t, ds);
    InvIsSound(GrantAll(t, ds).table, own, ds);
  }

  lemma {:induction false} SafeGrantsKeepInv(t: Table, ds: seq<Delegation>)
    requires TableInv(t) && SafeGrants(t, ds) && GrantAll(t, ds).error.None?
    ensures TableInv(GrantAll(t, ds).table)
    decreases |ds|
  {
    if ds != [] {
      if ds[0].path == "" {
        SafeGrantsKeepInv(t, ds[1..]);
      } else {
        GraftWorks(t, SplitName(ds[0].zone), P.Parse(ds[0].path).value);
        SafeGrantsKeepInv(GrantPrefix(t, ds[0].zone, ds[0].path).table, ds[1..]);
      }
    }
  }

  /** A parent that granted every zone its prefix over a table with nothing beneath them, and then numbered names. */
  ghost predicate IsParent(a: Table, own: string, ds: seq<Delegation>, zones: seq<Labels>, paths: seq<Path>) {
    exists t: Table, names: seq<string> :: ParentHistory(a, own, ds, zones, paths, t, names)
  }

  ghost predicate ParentHistory(a: Table, own: string, ds: seq<Delegation>, zones: seq<Labels>, paths: seq<Path>,
                                t: Table, names: seq<string>) {
    && Beneath(ds, own) && Grantable(t, WithPath(ds), zones, paths)
    && Sound(GrantAll(t, ds).table, own, ds)
    && (forall n :: n in names ==> Numberable(own, n))
    && (GrantAllKeepsRoot(t, ds); a == NumberAll(GrantAll(t, ds).table, own, ds, names))
  }

  /** One run of a child: the branches it delegates itself, and the names it numbers. */
  datatype Start = Start(sub: seq<Delegation>, names: seq<string>)

  /** The table after own prefix and branches are granted, over the table that was kept. */
  function Prepared(t: Table, d: Delegation, sub: seq<Delegation>): Granting
    requires [] in t
  {
    var seeded := SeedPrefix(Reloaded(t), d.zone, d.path);
    if seeded.error.Some? then seeded
    else
      SeedKeepsRoot(Reloaded(t), d.zone, d.path);
      GrantAll(seeded.table, sub)
  }

  lemma SeedKeepsRoot(t: Table, zone: string, dotted: string)
    requires [] in t
    ensures [] in SeedPrefix(t, zone, dotted).table
  {
    GrantKeepsRoot(t, zone, dotted);
  }

  lemma PreparedKeepsRoot(t: Table, d: Delegation, sub: seq<Delegation>)
    requires [] in t
    ensures [] in Prepared(t, d, sub).table
  {
    SeedKeepsRoot(Reloaded(t), d.zone, d.path);
    if SeedPrefix(Reloaded(t), d.zone, d.path).error.None? {
      GrantAllKeepsRoot(SeedPrefix(Reloaded(t), d.zone, d.path).table, sub);
    }
  }

  /** The registry starts: every prefix is granted. */
  predicate Starts(t: Table, d: Delegation, s: Start)
    requires [] in t
  {
    Beneath(s.sub, d.zone) && Prepared(t, d, s.sub).error.None?
  }

  function AfterStart(t: Table, d: Delegation, s: Start): (t': Table)
    requires [] in t && Starts(t, d, s)
    ensures [] in t'
  {
    PreparedKeepsRoot(t, d, s.sub);
    NumberAll(Prepared(t, d, s.sub).table, d.zone, s.sub, s.names)
  }

  predicate Lives(t: Table, d: Delegation, starts: seq<Start>)
    requires [] in t
    decreases |starts|
  {
    starts == [] || (Starts(t, d, starts[0]) && Lives(AfterStart(t, d, starts[0]), d, starts[1..]))
  }

  function AfterLife(t: Table, d: Delegation, starts: seq<Start>): Table
    requires [] in t && Lives(t, d, starts)
    decreases |starts|
  {
    if starts == [] then t else AfterLife(AfterStart(t, d, starts[0]), d, starts[1..])
  }

  /**
   * A child: a registry that began with an empty tree and was started one or more times, each
   * time with the prefix of its zone, with any delegations of its own and any names.
   */
  ghost predicate IsChild(c: Table, d: Delegation) {
    exists starts: seq<Start> :: starts != [] && Lives(NewTable(), d, starts) && c == AfterLife(NewTable(), d, starts)
  }

  lemma GrantKeepsConfined(t: Table, s: Delegation, zone: Labels, path: Path)
    requires Confined(t, zone, path) && GoodZone(zone) && IsNarrower(s.zone, NameOf(zone))
    ensures Confined(GrantPrefix(t, s.zone, s.path).table, zone, path)
  {
    var labels := SplitName(s.zone);
    NarrowerIsDeeper(s.zone, NameOf(zone));
    ContainedHasPrefix(zone, s.zone);
    if P.Parse(s.path).Ok? && 0 < |labels| == |P.Parse(s.path).value| <= MAX_DEPTH {
      GraftExtends(t, [], labels, P.Parse(s.path).value);
      assert [] + labels == labels;
      StaysConfined(t, Graft(t, labels, P.Parse(s.path).value).table, labels, zone, path);
    }
  }

  lemma {:induction false} GrantAllKeepsConfined(t: Table, sub: seq<Delegation>, zone: Labels, path: Path)
    requires Confined(t, zone, path) && GoodZone(zone) && Beneath(sub, NameOf(zone))
    ensures Confined(GrantAll(t, sub).table, zone, path)
    decreases |sub|
  {
    if sub != [] {
      assert sub[0] in sub;
      if sub[0].path == "" {
        GrantAllKeepsConfined(t, sub[1..], zone, path);
      } else {
        GrantKeepsConfined(t, sub[0], zone, path);
        GrantAllKeepsConfined(GrantPrefix(t, sub[0].zone, sub[0].path).table, sub[1..], zone, path);
      }
    }
  }

  /**
   * Delegation may go on to any depth: a table that is confined to a branch which a confined
   * table gave away is itself confined to the larger branch, so whatever holds of a child
   * holds of every registry further down.
   */
  lemma DescendantIsConfined(c: Table, zone: Labels, path: Path, g: Table, branch: Labels, prefix: Path)
    requires Confined(c, zone, path) && zone <= branch && Bears(c, branch, prefix) && Confined(g, branch, prefix)
    ensures Confined(g, zone, path)
  {
    PrefixPath(c, branch, prefix, zone);
    PrefixPath(g, branch, prefix, zone);
    forall q | q in g
      ensures (q <= zone || zone <= q) && |q| <= MAX_DEPTH
    {
      BothPrefixes(q, zone, branch);
      PrefixTrans(zone, branch, q);
    }
  }

  lemma ParentIsReserved(a: Table, own: string, ds: seq<Delegation>, zones: seq<Labels>, paths: seq<Path>, k: nat)
    requires IsParent(a, own, ds, zones, paths) && k < |WithPath(ds)|
    ensures k < |zones| && k < |paths| && Reserved(a, zones[k], paths[k])
  {
    var t: Table, names: seq<string> :| ParentHistory(a, own, ds, zones, paths, t, names);
    var d := WithPath(ds)[k];
    GrantsReserve(t, WithPath(ds), zones, paths, k);
    GrantAllSkips(t, ds);
    WithPathKeeps(ds, d);
    assert GrantAt(WithPath(ds), zones, paths, k);
    ParentRuns(GrantAll(t, ds).table, own, ds, names, d, zones[k], paths[k]);
  }

  lemma ParentIsNumbered(a: Table, own: string, ds: seq<Delegation>, zones: seq<Labels>, paths: seq<Path>, k: nat)
    requires IsParent(a, own, ds, zones, paths) && k < |WithPath(ds)|
    ensures WellNumbered(a)
  {
    var t: Table, names: seq<string> :| ParentHistory(a, own, ds, zones, paths, t, names);
    var d, a0 := WithPath(ds)[k], GrantAll(t, ds).table;
    GrantsReserve(t, WithPath(ds), zones, paths, k);
    GrantsKeepNumbering(t, WithPath(ds), zones, paths);
    GrantAllSkips(t, ds);
    WithPathKeeps(ds, d);
    assert GrantAt(WithPath(ds), zones, paths, k);
    NamesAreMembers(a0, zones[k]);
    ParentNumbersAll(a0, own, ds, names, zones[k]);
  }

  lemma SeedConfines(t: Table, d: Delegation, zone: Labels, path: Path)
    requires Within(t, zone) && GoodGrant(d, zone, path) && SeedPrefix(t, d.zone, d.path).error.None?
    ensures Confined(SeedPrefix(t, d.zone, d.path).table, zone, path)
  {
    ZoneText(zone);
    var u := Graft(t, zone, path);
    assert SeedPrefix(t, d.zone, d.path) == Granting(u.table, None) && |zone| == |path| <= MAX_DEPTH;
    GraftExtends(t, [], zone, path);
    assert [] + zone == zone;
    forall p | p in u.table
      ensures (p <= zone || zone <= p) && |p| <= MAX_DEPTH
    {
    }
  }

  lemma StartConfines(t: Table, d: Delegation, s: Start, zone: Labels, path: Path)
    requires Within(t, zone) && GoodGrant(d, zone, path) && Starts(t, d, s)
    ensures Confined(AfterStart(t, d, s), zone, path)
  {
    SeedConfines(Reloaded(t), d, zone, path);
    var seeded := SeedPrefix(Reloaded(t), d.zone, d.path).table;
    GrantAllKeepsConfined(seeded, s.sub, zone, path);
    ChildRuns(GrantAll(seeded, s.sub).table, d.zone, s.sub, s.names, zone, path);
  }

  lemma {:induction false} LifeConfines(t: Table, d: Delegation, starts: seq<Start>, zone: Labels, path: Path)
    requires Within(t, zone) && GoodGrant(d, zone, path) && Lives(t, d, starts)
    ensures starts != [] ==> Confined(AfterLife(t, d, starts), zone, path)
    decreases |starts|
  {
    if starts != [] {
      StartConfines(t, d, starts[0], zone, path);
      LifeConfines(AfterStart(t, d, starts[0]), d, starts[1..], zone, path);
    }
  }

  lemma ChildIsConfined(c: Table, d: Delegation, zone: Labels, path: Path)
    requires IsChild(c, d) && GoodGrant(d, zone, path)
    ensures Confined(c, zone, path)
  {
    var starts: seq<Start> :| starts != [] && Lives(NewTable(), d, starts) && c == AfterLife(NewTable(), d, starts);
    LifeConfines(NewTable(), d, starts, zone, path);
  }

  /** One child for every delegation that came with a prefix. */
  ghost predicate AreKids(kids: seq<Table>, ds: seq<Delegation>) {
    |kids| == |ds| && forall i :: 0 <= i < |kids| ==> IsChild(kids[i], ds[i])
  }

  ghost predicate KidsAgree(kids: seq<Table>) {
    forall i, j :: 0 <= i < |kids| && 0 <= j < |kids| && i != j ==> Consistent(kids[i], kids[j])
  }

  ghost predicate AgreesWithKids(a: Table, kids: seq<Table>) {
    forall i :: 0 <= i < |kids| ==> Consistent(a, kids[i])
  }

  /**
   * One numbering, many authorities. Whatever names the parent and its children number after
   * the zones were granted and the children seeded: between the parent's table and a child's,
   * and between the tables of two children, a name and a path determine each other; the parent
   * has nothing beneath a zone it gave away, and what a child numbers lies under its prefix.
   */
  lemma OneNumbering(a: Table, own: string, ds: seq<Delegation>, zones: seq<Labels>, paths: seq<Path>,
                     kids: seq<Table>)
    requires IsParent(a, own, ds, zones, paths) && AreKids(kids, WithPath(ds))
    ensures |zones| == |paths| == |kids|
    ensures AgreesWithKids(a, kids) && KidsAgree(kids) && AllClear(a, zones)
    ensures zones != [] ==> Consistent(a, a)
    ensures forall i, n :: 0 <= i < |kids| && HasName(kids[i], n) && zones[i] <= n ==> paths[i] <= PathOf(kids[i], n)
  {
    var t: Table, names: seq<string> :| ParentHistory(a, own, ds, zones, paths, t, names);
    forall i | 0 <= i < |kids|
      ensures WellNumbered(a) && Reserved(a, zones[i], paths[i]) && Confined(kids[i], zones[i], paths[i])
      ensures Consistent(a, kids[i]) && Clear(a, zones[i])
      ensures forall n :: HasName(kids[i], n) && zones[i] <= n ==> paths[i] <= PathOf(kids[i], n)
    {
      ParentIsReserved(a, own, ds, zones, paths, i);
      ParentIsNumbered(a, own, ds, zones, paths, i);
      assert GrantAt(WithPath(ds), zones, paths, i);
      ChildIsConfined(kids[i], WithPath(ds)[i], zones[i], paths[i]);
      OneChild(a, kids[i], zones[i], paths[i]);
    }
    if zones != [] {
      assert Reserved(a, zones[0], paths[0]);
      ConsistentAlone(a);
      KidsOfOneParent(a, zones, paths, kids);
    }
  }

  lemma ConsistentAlone(a: Table)
    requires WellNumbered(a)
    ensures Consistent(a, a)
  {
    forall m, n | HasName(a, m) && HasName(a, n)
      ensures PathOf(a, m) == PathOf(a, n) <==> m == n
    {
      if PathOf(a, m) == PathOf(a, n) {
        PathsAreUnique(a, [], m, n);
      }
    }
  }

  lemma KidsOfOneParent(a: Table, zones: seq<Labels>, paths: seq<Path>, kids: seq<Table>)
    requires |zones| == |paths| == |kids| && Apart(zones) && WellNumbered(a)
    requires forall i :: 0 <= i < |kids| ==> Bears(a, zones[i], paths[i]) && Confined(kids[i], zones[i], paths[i])
    ensures KidsAgree(kids)
  {
    forall i, j | 0 <= i < |kids| && 0 <= j < |kids| && i != j
      ensures Consistent(kids[i], kids[j])
    {
      assert BesideAt(zones, i, j) && BesideAt(zones, j, i);
      ConsistentKids(a, kids[i], zones[i], paths[i], kids[j], zones[j], paths[j]);
    }
  }

  lemma OneChild(a: Table, c: Table, zone: Labels, path: Path)
    requires WellNumbered(a) && Reserved(a, zone, path) && Confined(c, zone, path)
    ensures Consistent(a, c) && Clear(a, zone)
    ensures forall n :: HasName(c, n) && zone <= n ==> path <= PathOf(c, n)
  {
    forall m, n | HasName(a, m) && HasName(c, n)
      ensures PathOf(a, m) == PathOf(c, n) <==> m == n
    {
      ParentAndChild(a, c, zone, path, m, n);
    }
    forall n | HasName(c, n) && zone <= n
      ensures path <= PathOf(c, n)
    {
      BelowPrefix(c, zone, path, n);
    }
  }

  lemma ConsistentKids(a: Table, c1: Table, z1: Labels, p1: Path, c2: Table, z2: Labels, p2: Path)
    requires WellNumbered(a) && Bears(a, z1, p1) && Bears(a, z2, p2) && Beside(z1, z2) && Beside(z2, z1)
    requires Confined(c1, z1, p1) && Confined(c2, z2, p2)
    ensures Consistent(c1, c2)
  {
    forall m, n | HasName(c1, m) && HasName(c2, n)
      ensures PathOf(c1, m) == PathOf(c2, n) <==> m == n
    {
      TwoChildren(a, c1, z1, p1, c2, z2, p2, m, n);
    }
  }
}
