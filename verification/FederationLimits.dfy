/**
 * How far the agreement between registries goes: exactly which names a parent may number, that
 * every zone can be granted, and exactly when the tables of parent and children agree for good.
 */
module FederationLimits {
  import opened Basics
  import opened Delegations
  import opened Federation
  import opened Names
  import opened NsGraft
  import opened NsSnapshot
  import opened NsTable
  import opened Zone
  import opened ZoneLabels
  import P = NsPath

  // ---- exactly which names are safe ----

  lemma {:induction false} NewNodeCounter(t: Table, at: Labels, rest: Labels)
    requires at in t && t[at].next == 1 && forall p :: p in t && at <= p ==> p == at
    ensures at + rest in AllocateFrom(t, at, rest).table && AllocateFrom(t, at, rest).table[at + rest].next == 1
    decreases |rest|
  {
    if rest == [] {
      assert at + rest == at;
    } else {
      Regroup(at, rest);
      var at' := at + [rest[0]];
      assert at <= at';
      var t' := Insert(t, at, rest[0], 1, 2);
      forall p | p in t' && at' <= p
        ensures p == at'
      {
        assert at == at'[..|at|];
      }
      NewNodeCounter(t', at', rest[1..]);
    }
  }

  /** A table that holds one branch only. */
  lemma OneBranch(zone: Labels) returns (path: Path)
    requires 1 <= |zone| <= MAX_DEPTH
    ensures var t := Allocate(NewTable(), zone).table;
            Reserved(t, zone, path) && zone in t && t[zone].next == 1
  {
    NewIsReplica(NewTable());
    AllocateIsAllOrNothing(NewTable(), zone);
    AllocateBelowNewNode(NewTable(), [], zone);
    NewNodeCounter(NewTable(), [], zone);
    assert [] + zone == zone;
    var t := Allocate(NewTable(), zone).table;
    path := PathOf(t, zone);
    forall p | p in t
      ensures !(zone < p)
    {
      assert p == [] || p <= zone;
    }
  }

  /** A registry with this zone keeps out of the zones it delegated when it numbers this name. */
  ghost predicate StaysOut(own: string, name: string) {
    forall t: Table, ds: seq<Delegation>, d: Delegation, zone: Labels, path: Path ::
      Reserved(t, zone, path) && Beneath(ds, own) && d in ds && GoodZone(zone) && d.zone == NameOf(zone)
      ==> Reserved(AllocateFor(t, own, ds, name), zone, path)
  }

  /**
   * The names a registry can number without growing beneath a branch it gave away are exactly
   * those whose text contains the zone of their labels and those outside its own zone: for
   * every other name there is a delegation it may load and reaches into.
   */
  lemma StaysOutIff(o: Labels, name: string)
    requires GoodZone(o)
    ensures StaysOut(NameOf(o), name) <==> Guarded(name) || !Contains(NameOf(o), name)
  {
    var own := NameOf(o);
    if Guarded(name) || !Contains(own, name) {
      forall t: Table, ds: seq<Delegation>, d: Delegation, zone: Labels, path: Path
        | Reserved(t, zone, path) && Beneath(ds, own) && d in ds && GoodZone(zone) && d.zone == NameOf(zone)
        ensures Reserved(AllocateFor(t, own, ds, name), zone, path)
      {
        ParentKeeps(t, own, ds, name, d, zone, path);
      }
    } else {
      ReachesIn(o, name);
    }
  }

  /** The zone of such a name lies strictly beneath the registry's own, so it can be delegated. */
  lemma UnguardedIsDeep(o: Labels, name: string)
    requires GoodZone(o) && !Guarded(name) && Contains(NameOf(o), name)
    ensures var s := SplitName(name);
            1 < |s| <= MAX_DEPTH && GoodZone(s[..|s| - 1]) && IsNarrower(NameOf(s[..|s| - 1]), NameOf(o))
  {
    var s := SplitName(name);
    SplitNameIsGood(name);
    var zone := s[..|s| - 1];
    assert GoodLabels(zone) && zone <= s;
    ContainedHasPrefix(o, name);
    if o == s {
      PrefixContains(zone, s);
      ContainsIsTransitive(NameOf(zone), NameOf(s), name);
    }
    assert o < zone by {
      assert o != s && o != zone;
      assert o <= zone;
    }
    ContainsIsPrefix(o, zone);
  }

  lemma ReachesIn(o: Labels, name: string)
    requires GoodZone(o) && !Guarded(name) && Contains(NameOf(o), name)
    ensures !StaysOut(NameOf(o), name)
  {
    UnguardedIsDeep(o, name);
    var s, own := SplitName(name), NameOf(o);
    var zone, l := s[..|s| - 1], s[|s| - 1];
    assert s == zone + [l];
    var path := OneBranch(zone);
    var t := Allocate(NewTable(), zone).table;
    var d := Delegation(NameOf(zone), "", "", "");
    assert Beneath([d], own) && d in [d] && !Delegated([d], name);
    assert [] + zone == zone;
    AllocateChild(t, [], zone, l);
    assert zone < s && s in AllocateFor(t, own, [d], name);
    assert !Reserved(AllocateFor(t, own, [d], name), zone, path);
  }

  /** Well-formed text is guarded, so only malformed names can reach in. */
  lemma WrittenIsGuarded(labels: Labels)
    requires GoodZone(labels)
    ensures Guarded(NameOf(labels))
  {
    ZoneText(labels);
    if |labels| > 1 {
      var z := labels[..|labels| - 1];
      assert GoodLabels(z);
      PrefixContains(z, labels);
    }
  }

  function DoubledDot(l: string, m: string, r: string): string {
    l + "." + m + "." + "" + "." + r
  }

  lemma DoubledDotText(l: string, m: string, r: string)
    requires GoodLabel(l) && GoodLabel(m) && GoodLabel(r)
    ensures Tidy(DoubledDot(l, m, r)) && DoubledDot(l, m, r)[|DoubledDot(l, m, r)| - 1] != '.'
    ensures Split(DoubledDot(l, m, r)) == [l, m, "", r]
  {
    var name := DoubledDot(l, m, r);
    assert name[0] == l[0] && name[|name| - 1] == r[|r| - 1];
    DoubledDotSplit(l, m, r);
  }

  lemma DoubledDotSplit(l: string, m: string, r: string)
    requires GoodLabel(l) && GoodLabel(m) && GoodLabel(r)
    ensures Split(DoubledDot(l, m, r)) == [l, m, "", r]
  {
    var two := l + "." + m;
    SplitAppend(l, m);
    SplitAppend(two, "");
    SplitAppend(two + "." + "", r);
    SplitPiece(l, "");
    SplitPiece(m, "");
    SplitPiece(r, "");
  }

  lemma CleanedWithGap(l: string, m: string, r: string)
    requires GoodLabel(l) && GoodLabel(m) && GoodLabel(r)
    ensures Cleaned([l, m, "", r]) == [l, m, r]
  {
    CleanedAppend([l, m, ""], [r]);
    CleanedAppend([l, m], [""]);
    CleanGood([l, m]);
    CleanGood([r]);
    assert [l, m] + [""] == [l, m, ""] && [l, m, ""] + [r] == [l, m, "", r];
    assert [""][1..] == [] && Cleaned([""]) == [];
  }

  lemma ReverseThree(l: string, m: string, r: string)
    ensures Reverse([l, m, r]) == [r, m, l] && NameOf([r, m]) == m + "." + r
  {
    ReverseAppend([l, m], [r]);
    ReverseAppend([l], [m]);
    ReverseAppend([r], [m]);
    assert [l] + [m] == [l, m] && [l, m] + [r] == [l, m, r] && [r] + [m] == [r, m];
    assert [l][1..] == [] && [m][1..] == [] && [r][1..] == [] && [m, r][1..] == [r];
    assert Reverse([r, m]) == [m, r] && Join([r]) == r && Join([m, r]) == m + "." + Join([r]);
  }

  lemma DoubledDotLabels(l: string, m: string, r: string)
    requires GoodLabel(l) && GoodLabel(m) && GoodLabel(r)
    ensures SplitName(DoubledDot(l, m, r)) == [r, m, l]
    ensures Normalise(DoubledDot(l, m, r)) == DoubledDot(l, m, r)
  {
    var name := DoubledDot(l, m, r);
    DoubledDotText(l, m, r);
    TrimTidy(name);
    LowerIsLowered(name);
    SplitNormalised(name);
    CleanedWithGap(l, m, r);
    ReverseThree(l, m, r);
  }

  lemma DoubledDotIsNoSuffix(l: string, m: string, r: string)
    requires GoodLabel(m)
    ensures !HasSuffix(DoubledDot(l, m, r), "." + (m + "." + r))
  {
    var name, tail := DoubledDot(l, m, r), "." + (m + "." + r);
    assert name[|name| - |r| - 2] == '.' && tail[|tail| - |r| - 2] == m[|m| - 1];
    assert |tail| <= |name| && name[|name| - |tail|..][|tail| - |r| - 2] == name[|name| - |r| - 2];
  }

  lemma DoubledDotEndsIn(l: string, m: string, r: string)
    ensures HasSuffix(DoubledDot(l, m, r), "." + r)
  {
    TailIsSuffix(l + "." + m + "." + "", r);
  }

  /** The smallest kind of name that reaches in: one dot too many, in the registry of zone r. */
  lemma DoubledDotReachesIn(l: string, m: string, r: string)
    requires GoodLabel(l) && GoodLabel(m) && GoodLabel(r)
    ensures Contains(NameOf([r]), DoubledDot(l, m, r)) && !StaysOut(NameOf([r]), DoubledDot(l, m, r))
  {
    var name, zone := DoubledDot(l, m, r), [r, m];
    DoubledDotLabels(l, m, r);
    ReverseThree(l, m, r);
    assert [r, m, l][..2] == zone && GoodZone(zone) && GoodZone([r]);
    ZoneText(zone);
    ZoneText([r]);
    DoubledDotIsNoSuffix(l, m, r);
    assert |name| > |NameOf(zone)|;
    assert !Guarded(name);
    DoubledDotEndsIn(l, m, r);
    StaysOutIff([r], name);
  }

  // ---- federations exist ----

  /** An entry of a delegation table for this zone, with its prefix written out. */
  predicate EntryFor(d: Delegation, zone: Labels, path: Path) {
    && GoodZone(zone) && |zone| == |path| <= MAX_DEPTH && 0 !in path
    && d.zone == NameOf(zone) && d.path == P.String(path)
  }

  lemma EntryIsGood(d: Delegation, zone: Labels, path: Path)
    requires EntryFor(d, zone, path)
    ensures GoodGrant(d, zone, path) && Depth(d.zone) == |path|
  {
    P.TextRoundTrip(path);
    P.DigitsAtEnds(path);
    ZoneText(zone);
  }

  lemma FirstGrantSucceeds(zone: Labels, path: Path, d: Delegation)
    requires EntryFor(d, zone, path)
    ensures GrantPrefix(NewTable(), d.zone, d.path) == Granting(Graft(NewTable(), zone, path).table, None)
  {
    EntryIsGood(d, zone, path);
    ZoneText(zone);
    GraftBelowNewNode(NewTable(), [], zone, path);
  }

  lemma OneGrant(t: Table, d: Delegation, t': Table)
    requires [] in t && d.path != "" && GrantPrefix(t, d.zone, d.path) == Granting(t', None)
    ensures [] in t' && GrantAll(t, [d]) == Granting(t', None) && WithPath([d]) == [d]
  {
    GrantKeepsRoot(t, d.zone, d.path);
    assert [d][1..] == [];
  }

  lemma FirstGrantIsSound(zone: Labels, path: Path, own: string, ds: seq<Delegation>)
    ensures Sound(Graft(NewTable(), zone, path).table, own, ds)
  {
    NewIsReplica(NewTable());
    GraftWorks(NewTable(), zone, path);
    InvIsSound(Graft(NewTable(), zone, path).table, own, ds);
  }

  lemma ParentExists(own: string, zone: Labels, path: Path, d: Delegation, a: Table)
    requires EntryFor(d, zone, path) && a == Graft(NewTable(), zone, path).table && IsNarrower(d.zone, own)
    ensures IsParent(a, own, [d], [zone], [path])
  {
    EntryIsGood(d, zone, path);
    FirstGrantSucceeds(zone, path, d);
    NewIsReplica(NewTable());
    OneGrant(NewTable(), d, a);
    FirstGrantIsSound(zone, path, own, [d]);
    OneIsGrantable(d, zone, path);
    assert Beneath([d], own);
    assert ParentHistory(a, own, [d], [zone], [path], NewTable(), []);
  }

  lemma OneIsGrantable(d: Delegation, zone: Labels, path: Path)
    requires GoodGrant(d, zone, path) && GrantAll(NewTable(), [d]).error.None?
    ensures Grantable(NewTable(), [d], [zone], [path])
  {
    NewIsReplica(NewTable());
    assert GrantAt([d], [zone], [path], 0);
    assert Clear(NewTable(), zone);
  }

  /** The table of a child right after its first start, when it delegates nothing. */
  function Seeded(d: Delegation): Table {
    SeedPrefix(NewTable(), d.zone, d.path).table
  }

  lemma SeedWorks(zone: Labels, path: Path, d: Delegation)
    requires GoodGrant(d, zone, path) && |zone| == |path|
    ensures SeedPrefix(NewTable(), d.zone, d.path).error.None? && Confined(Seeded(d), zone, path)
    ensures Seeded(d) == Graft(NewTable(), zone, path).table && 0 !in path && |path| <= MAX_DEPTH
  {
    ZoneText(zone);
    P.ParseExact(d.path, path);
    GraftBelowNewNode(NewTable(), [], zone, path);
    SeedConfines(NewTable(), d, zone, path);
  }

  lemma SeededChild(zone: Labels, path: Path, d: Delegation, names: seq<string>)
    requires GoodGrant(d, zone, path) && |zone| == |path|
    ensures [] in Seeded(d) && IsChild(NumberAll(Seeded(d), d.zone, [], names), d)
  {
    var start := Start([], names);
    FirstStart(zone, path, d, start);
    OneStart(NewTable(), d, start);
    assert [start] != [];
  }

  lemma FirstStart(zone: Labels, path: Path, d: Delegation, start: Start)
    requires GoodGrant(d, zone, path) && |zone| == |path| && start.sub == []
    ensures [] in Seeded(d) && Starts(NewTable(), d, start)
    ensures AfterStart(NewTable(), d, start) == NumberAll(Seeded(d), d.zone, [], start.names)
  {
    FirstPrepared(zone, path, d);
    assert Beneath([], d.zone);
  }

  lemma FirstPrepared(zone: Labels, path: Path, d: Delegation)
    requires GoodGrant(d, zone, path) && |zone| == |path|
    ensures [] in Seeded(d) && Prepared(NewTable(), d, []) == Granting(Seeded(d), None)
  {
    SeedWorks(zone, path, d);
    assert Reloaded(NewTable()) == NewTable();
  }

  lemma OneStart(t: Table, d: Delegation, s: Start)
    requires [] in t && Starts(t, d, s)
    ensures Lives(t, d, [s]) && AfterLife(t, d, [s]) == AfterStart(t, d, s)
  {
    assert [s][1..] == [];
  }

  /**
   * Such federations exist: every zone that is not top-level can be granted every prefix of
   * its depth without a zero by the registry of any of the zones around it, from an entry its
   * loader accepts, and a child can be seeded with that prefix.
   */
  lemma EveryGrantSucceeds(zone: Labels, path: Path, k: nat, d: Delegation, validKey: string -> bool)
    requires EntryFor(d, zone, path) && 0 < k < |zone| && validKey(d.key) && d.endpoint != ""
    ensures var own, a := NameOf(zone[..k]), Graft(NewTable(), zone, path).table;
            && Acceptable(d, own, validKey) && GoodGrant(d, zone, path)
            && IsParent(a, own, [d], [zone], [path]) && IsChild(a, d)
  {
    EntryIsGood(d, zone, path);
    ContainsIsPrefix(zone[..k], zone);
    ParentExists(NameOf(zone[..k]), zone, path, d, Graft(NewTable(), zone, path).table);
    SeedWorks(zone, path, d);
    SeededChild(zone, path, d, []);
  }

  // ---- a child that has numbered k names ----

  lemma {:induction false} GraftLeafCounter(t: Table, at: Labels, rest: Labels, path: Path)
    requires at in t && |rest| == |path| && 0 !in path && t[at].next == 1 && forall p :: p in t && at <= p ==> p == at
    ensures var u := GraftFrom(t, at, rest, path).table; at + rest in u && u[at + rest].next == 1
    decreases |rest|
  {
    if rest == [] {
      assert at + rest == at;
    } else {
      Regroup(at, rest);
      var at' := at + [rest[0]];
      assert at <= at';
      NewChildIsFree(t, at, path[0]);
      var t' := Insert(t, at, rest[0], path[0], RaisedCounter(t[at].next, path[0]));
      forall p | p in t' && at' <= p
        ensures p == at'
      {
        assert at == at'[..|at|];
      }
      assert path[0] in path;
      GraftLeafCounter(t', at', rest[1..], path[1..]);
    }
  }

  lemma NewChildIsFree(t: Table, at: Labels, nid: uint32)
    requires forall p :: p in t && at <= p ==> p == at
    ensures !NidTaken(t, at, nid)
  {
    forall l: Label {:trigger at + [l]}
      ensures at + [l] !in t
    {
      assert at <= at + [l];
    }
    NotTaken(t, at, nid);
  }

  lemma SeededCounter(zone: Labels, path: Path, d: Delegation)
    requires GoodGrant(d, zone, path) && |zone| == |path|
    ensures zone in Seeded(d) && Seeded(d)[zone].next == 1 && forall p :: p in Seeded(d) ==> p <= zone
  {
    SeedWorks(zone, path, d);
    GraftLeafCounter(NewTable(), [], zone, path);
    GraftExtends(NewTable(), [], zone, path);
    assert [] + zone == zone;
  }

  /** The k-th of a row of different labels, each longer than m. */
  function Tag(m: nat, k: nat): string {
    seq(m + k, _ => 'a')
  }

  lemma TagIsGood(m: nat, k: nat)
    requires k > 0
    ensures GoodLabel(Tag(m, k)) && |Tag(m, k)| == m + k
  {
  }

  lemma {:induction false} NumberOneMore(t: Table, own: string, names: seq<string>, name: string)
    requires [] in t
    ensures NumberAll(t, own, [], names + [name]) == AllocateFor(NumberAll(t, own, [], names), own, [], name)
    decreases |names|
  {
    if names == [] {
      assert [] + [name] == [name] && [name][1..] == [];
    } else {
      assert (names + [name])[0] == names[0] && (names + [name])[1..] == names[1..] + [name];
      AllocateForExtends(t, own, [], names[0]);
      NumberOneMore(AllocateFor(t, own, [], names[0]), own, names[1..], name);
    }
  }

  lemma NumbersChild(t: Table, zone: Labels, x: Label)
    requires [] in t && GoodZone(zone) && GoodLabel(x)
    ensures AllocateFor(t, NameOf(zone), [], NameOf(zone + [x])) == Allocate(t, zone + [x]).table
  {
    var z := zone + [x];
    assert GoodZone(z) && zone <= z;
    ZoneText(z);
    PrefixContains(zone, z);
  }

  /** The child has numbered k names directly beneath its zone, and nothing else there. */
  ghost predicate Tally(c: Table, zone: Labels, m: nat, k: nat) {
    && zone in c && Bound(c[zone].next) == k + 1
    && forall x: Label {:trigger zone + [x]} :: zone + [x] in c ==> m < |x| <= m + k
  }

  lemma SmallMod(k: nat)
    ensures k < TWO32 ==> k % TWO32 == k
  {
  }

  lemma TallyOne(c: Table, zone: Labels, m: nat, k: nat, x: Label)
    requires [] in c && HasName(c, zone) && Tally(c, zone, m, k) && |zone| < MAX_DEPTH && k + 1 < TWO32 && |x| == m + k + 1
    ensures c[zone].next == k + 1 && zone + [x] !in c && Tally(Allocate(c, zone + [x]).table, zone, m, k + 1)
  {
    SmallMod(k + 1);
    assert zone + [x] !in c;
    InsertsChild(c, zone, x);
    var c' := Allocate(c, zone + [x]).table;
    forall y: Label {:trigger zone + [y]} | zone + [y] in c'
      ensures m < |y| <= m + k + 1
    {
      AppendInjective(zone, x, zone, y);
    }
    assert |zone + [x]| != |zone|;
  }

  lemma InsertsChild(c: Table, zone: Labels, x: Label)
    requires [] in c && HasName(c, zone) && zone in c && zone + [x] !in c && c[zone].next != 0 && |zone| < MAX_DEPTH
    ensures Allocate(c, zone + [x]).table == Insert(c, zone, x, c[zone].next, (c[zone].next + 1) % TWO32)
  {
    assert [] + zone == zone;
    AllocateChild(c, [], zone, x);
  }

  /** The next name directly beneath the zone gets the next identifier. */
  lemma CountOne(c: Table, own: string, zone: Labels, path: Path, m: nat, k: nat, x: Label) returns (c': Table)
    requires Confined(c, zone, path) && Tally(c, zone, m, k) && GoodZone(zone) && own == NameOf(zone)
    requires |zone| < MAX_DEPTH && k + 1 < TWO32 && GoodLabel(x) && |x| == m + k + 1
    ensures c' == AllocateFor(c, own, [], NameOf(zone + [x]))
    ensures Confined(c', zone, path) && Tally(c', zone, m, k + 1)
    ensures Bears(c', zone + [x], path + [(k + 1) as uint32])
  {
    NumbersChild(c, zone, x);
    ChildKeeps(c, own, [], NameOf(zone + [x]), zone, path);
    TallyOne(c, zone, m, k, x);
    NextChild(c, zone, x);
    assert PathOf(c, zone) == path;
    c' := Allocate(c, zone + [x]).table;
  }

  /** One more name directly beneath the zone. */
  lemma NumberNext(t: Table, own: string, zone: Labels, path: Path, m: nat, k: nat, names: seq<string>)
    returns (more: seq<string>, c: Table)
    requires [] in t && Tallied(t, own, zone, path, m, k, names, NumberAll(t, own, [], names))
    requires |zone| < MAX_DEPTH && k + 1 < TWO32
    ensures Tallied(t, own, zone, path, m, k + 1, more, c)
    ensures Bears(c, zone + [Tag(m, k + 1)], path + [(k + 1) as uint32])
  {
    TagIsGood(m, k + 1);
    var x := Tag(m, k + 1);
    more := names + [NameOf(zone + [x])];
    NumberOneMore(t, own, names, NameOf(zone + [x]));
    c := CountOne(NumberAll(t, own, [], names), own, zone, path, m, k, x);
  }

  /** The child's table c after it has numbered these names, k of them directly beneath its zone. */
  ghost predicate Tallied(t: Table, own: string, zone: Labels, path: Path, m: nat, k: nat, names: seq<string>, c: Table)
    requires [] in t
  {
    && c == NumberAll(t, own, [], names) && GoodZone(zone) && own == NameOf(zone)
    && Confined(c, zone, path) && Tally(c, zone, m, k)
  }

  lemma {:induction false} NumberMany(t: Table, own: string, zone: Labels, path: Path, m: nat, k: nat)
    returns (names: seq<string>, c: Table)
    requires Confined(t, zone, path) && Tally(t, zone, m, 0) && GoodZone(zone) && own == NameOf(zone)
    requires |zone| < MAX_DEPTH && k < TWO32
    ensures Tallied(t, own, zone, path, m, k, names, c)
    ensures k > 0 ==> Bears(c, zone + [Tag(m, k)], path + [k as uint32])
  {
    if k == 0 {
      names, c := [], t;
    } else {
      var j := k - 1;
      var some, before := NumberMany(t, own, zone, path, m, j);
      names, c := NumberNext(t, own, zone, path, m, j, some);
    }
  }

  lemma SeededTally(zone: Labels, path: Path, d: Delegation, m: nat)
    requires GoodGrant(d, zone, path) && |zone| == |path|
    ensures Confined(Seeded(d), zone, path) && Tally(Seeded(d), zone, m, 0)
  {
    SeedWorks(zone, path, d);
    SeededCounter(zone, path, d);
    forall x: Label {:trigger zone + [x]}
      ensures zone + [x] !in Seeded(d)
    {
      assert !(zone + [x] <= zone);
    }
  }

  /** A child can give every identifier directly beneath its zone to a name whose last label is not m. */
  lemma ChildWithPath(d: Delegation, zone: Labels, path: Path, m: Label, nid: uint32)
    returns (c: Table, name: Labels)
    requires GoodGrant(d, zone, path) && |zone| == |path| < MAX_DEPTH && nid != 0
    ensures IsChild(c, d) && Bears(c, name, path + [nid]) && name != zone + [m]
  {
    SeededTally(zone, path, d, |m|);
    var names: seq<string>;
    names, c := NumberMany(Seeded(d), d.zone, zone, path, |m|, nid as nat);
    SeededChild(zone, path, d, names);
    name := zone + [Tag(|m|, nid as nat)];
    AppendInjective(zone, m, zone, Tag(|m|, nid as nat));
  }

  // ---- exactly when parent and children agree ----

  lemma SamePathTwice(a: Table, b: Table, m: Labels, n: Labels, path: Path)
    requires Bears(a, m, path) && Bears(b, n, path) && m != n
    ensures !Consistent(a, b)
  {
  }

  /** Whoever else numbers anything beneath a zone that was given away: some child of that zone contradicts it. */
  lemma IntruderClashes(d: Delegation, zone: Labels, path: Path, b: Table, name: Labels) returns (c: Table)
    requires GoodGrant(d, zone, path) && |zone| == |path|
    requires Bears(b, zone, path) && HasName(b, name) && zone < name
    requires PathOf(b, name)[|zone|] != 0 && |zone| < MAX_DEPTH
    ensures IsChild(c, d) && !Consistent(b, c)
  {
    var k := |zone|;
    RootPath(b, name, k + 1);
    RootChild(b, name, k);
    assert name[..k] == zone;
    var l, nid := name[k], b[zone + [name[k]]].nid;
    assert zone + [l] in b && nid != 0;
    ChildBears(b, zone, l, path);
    var n: Labels;
    c, n := ChildWithPath(d, zone, path, l, nid);
    SamePathTwice(b, c, zone + [l], n, path + [nid]);
  }

  lemma NumberedNonZero(t: Table, name: Labels, k: nat)
    requires WellNumbered(t) && HasName(t, name) && k < |name|
    ensures PathOf(t, name)[k] != 0
  {
    RootChild(t, name, k);
  }

  /** Two delegations of nested zones, both granted by one parent: they have children that contradict each other. */
  lemma NestedZonesClash(a: Table, d1: Delegation, z1: Labels, p1: Path, d2: Delegation, z2: Labels, p2: Path)
    returns (c1: Table, c2: Table)
    requires GoodGrant(d1, z1, p1) && |z1| == |p1| && GoodGrant(d2, z2, p2) && |z2| == |p2|
    requires Bears(a, z1, p1) && Bears(a, z2, p2) && !Beside(z1, z2)
    ensures IsChild(c1, d1) && IsChild(c2, d2) && !Consistent(c1, c2) && !Consistent(c2, c1)
  {
    PrefixPath(a, z2, p2, z1);
    assert p2[..|z1|] == p1;
    SeedWorks(z2, p2, d2);
    var n: Labels;
    if z1 == z2 {
      c2, n := ChildBelow(d2, z2, p2);
    } else {
      SeededChild(z2, p2, d2, []);
      c2, n := Seeded(d2), z2;
      PrefixPath(c2, z2, p2, z1);
    }
    c1 := IntruderClashes(d1, z1, p1, c2, n);
    ClashBothWays(c2, c1);
  }

  /** A child with one name directly beneath its zone. */
  lemma ChildBelow(d: Delegation, zone: Labels, path: Path) returns (c: Table, n: Labels)
    requires GoodGrant(d, zone, path) && |zone| == |path| < MAX_DEPTH
    ensures IsChild(c, d) && Bears(c, zone, path) && zone < n && Bears(c, n, path + [1])
  {
    SeededTally(zone, path, d, 0);
    var names: seq<string>;
    names, c := NumberMany(Seeded(d), d.zone, zone, path, 0, 1);
    SeededChild(zone, path, d, names);
    n := zone + [Tag(0, 1)];
  }

  lemma ClashBothWays(a: Table, b: Table)
    requires !Consistent(a, b)
    ensures !Consistent(b, a)
  {
    var m, n :| HasName(a, m) && HasName(b, n) && !(PathOf(a, m) == PathOf(b, n) <==> m == n);
    assert HasName(b, n) && HasName(a, m);
  }

  /** A parent at its start: every zone it may delegate and has a prefix for was granted it. */
  ghost predicate Granted(t: Table, own: string, ds: seq<Delegation>, zones: seq<Labels>, paths: seq<Path>) {
    && Beneath(ds, own) && Labelled(WithPath(ds), zones, paths)
    && WellNumbered(t) && GrantAll(t, ds).error.None?
  }

  /** The first grant, and what is left to do after it. */
  lemma GrantFirst(t: Table, ds: seq<Delegation>, zones: seq<Labels>, paths: seq<Path>, a: Table) returns (t': Table)
    requires WellNumbered(t) && Labelled(ds, zones, paths) && GrantAll(t, ds) == Granting(a, None) && ds != []
    ensures WellNumbered(t') && Bears(t', zones[0], paths[0]) && |zones[0]| == |paths[0]|
    ensures Labelled(ds[1..], zones[1..], paths[1..]) && GrantAll(t', ds[1..]) == Granting(a, None)
    ensures forall n, p :: Bears(t, n, p) ==> Bears(t', n, p)
  {
    LabelledTail(ds, zones, paths);
    t' := GrantPrefix(t, ds[0].zone, ds[0].path).table;
    GrantWorks(t, ds[0], zones[0], paths[0]);
    ZoneText(zones[0]);
  }

  lemma {:induction false} GrantsKeepBearing(t: Table, ds: seq<Delegation>, zones: seq<Labels>, paths: seq<Path>,
                                             a: Table, name: Labels, path: Path)
    requires WellNumbered(t) && Labelled(ds, zones, paths) && GrantAll(t, ds) == Granting(a, None)
    requires Bears(t, name, path)
    ensures Bears(a, name, path)
    decreases |ds|
  {
    if ds != [] {
      var t' := GrantFirst(t, ds, zones, paths, a);
      GrantsKeepBearing(t', ds[1..], zones[1..], paths[1..], a, name, path);
    }
  }

  /** Every zone has its prefix in this table. */
  predicate AllBear(a: Table, zones: seq<Labels>, paths: seq<Path>) {
    |zones| == |paths| && forall i :: 0 <= i < |zones| ==> BearsAt(a, zones, paths, i)
  }

  predicate BearsAt(a: Table, zones: seq<Labels>, paths: seq<Path>, i: nat) {
    i < |zones| && i < |paths| && |zones[i]| == |paths[i]| && Bears(a, zones[i], paths[i])
  }

  lemma AllBearMore(a: Table, zones: seq<Labels>, paths: seq<Path>)
    requires zones != [] && paths != [] && AllBear(a, zones[1..], paths[1..]) && BearsAt(a, zones, paths, 0)
    ensures AllBear(a, zones, paths)
  {
    forall i | 0 <= i < |zones|
      ensures BearsAt(a, zones, paths, i)
    {
      if i > 0 {
        assert BearsAt(a, zones[1..], paths[1..], i - 1);
      }
    }
  }

  lemma {:induction false} GrantsBear(t: Table, ds: seq<Delegation>, zones: seq<Labels>, paths: seq<Path>, a: Table)
    requires WellNumbered(t) && Labelled(ds, zones, paths) && GrantAll(t, ds) == Granting(a, None)
    ensures AllBear(a, zones, paths)
    decreases |ds|
  {
    if ds != [] {
      var t' := GrantFirst(t, ds, zones, paths, a);
      GrantsKeepBearing(t', ds[1..], zones[1..], paths[1..], a, zones[0], paths[0]);
      GrantsBear(t', ds[1..], zones[1..], paths[1..], a);
      AllBearMore(a, zones, paths);
    }
  }

  lemma GrantedBears(t: Table, own: string, ds: seq<Delegation>, zones: seq<Labels>, paths: seq<Path>)
    requires Granted(t, own, ds, zones, paths)
    ensures WellNumbered(GrantAll(t, ds).table) && AllBear(GrantAll(t, ds).table, zones, paths)
  {
    GrantAllSkips(t, ds);
    GrantsKeepNumbering(t, WithPath(ds), zones, paths);
    GrantsBear(t, WithPath(ds), zones, paths, GrantAll(t, ds).table);
  }

  /** Children that have numbered nothing. */
  lemma SeededKids(a: Table, ds: seq<Delegation>, zones: seq<Labels>, paths: seq<Path>) returns (kids: seq<Table>)
    requires Labelled(ds, zones, paths) && AllBear(a, zones, paths)
    ensures AreKids(kids, ds)
  {
    kids := seq(|ds|, i requires 0 <= i < |ds| => Seeded(ds[i]));
    forall i | 0 <= i < |kids|
      ensures IsChild(kids[i], ds[i])
    {
      assert GrantAt(ds, zones, paths, i) && BearsAt(a, zones, paths, i);
      SeededChild(zones[i], paths[i], ds[i], []);
    }
  }

  lemma ReplaceKid(kids: seq<Table>, ds: seq<Delegation>, i: nat, c: Table)
    requires AreKids(kids, ds) && i < |kids| && IsChild(c, ds[i])
    ensures AreKids(kids[i := c], ds)
  {
  }

  ghost predicate KidsAlwaysAgree(ds: seq<Delegation>) {
    forall kids :: AreKids(kids, ds) ==> KidsAgree(kids)
  }

  /** Whatever the children number, they agree, exactly when no delegated zone lies in another. */
  lemma KidsAgreeIff(t: Table, own: string, ds: seq<Delegation>, zones: seq<Labels>, paths: seq<Path>)
    requires Granted(t, own, ds, zones, paths)
    ensures KidsAlwaysAgree(WithPath(ds)) <==> Apart(zones)
  {
    var a := GrantAll(t, ds).table;
    GrantedBears(t, own, ds, zones, paths);
    if Apart(zones) {
      forall kids | AreKids(kids, WithPath(ds))
        ensures KidsAgree(kids)
      {
        forall i | 0 <= i < |kids|
          ensures Bears(a, zones[i], paths[i]) && Confined(kids[i], zones[i], paths[i])
        {
          assert GrantAt(WithPath(ds), zones, paths, i) && BearsAt(a, zones, paths, i);
          ChildIsConfined(kids[i], WithPath(ds)[i], zones[i], paths[i]);
        }
        KidsOfOneParent(a, zones, paths, kids);
      }
    } else {
      var i, j :| 0 <= i < |zones| && 0 <= j < |zones| && i != j && !BesideAt(zones, i, j);
      KidsClash(a, WithPath(ds), zones, paths, i, j);
    }
  }

  lemma KidsClash(a: Table, ds: seq<Delegation>, zones: seq<Labels>, paths: seq<Path>, i: nat, j: nat)
    requires Labelled(ds, zones, paths) && i < |zones| && j < |zones| && i != j
    requires AllBear(a, zones, paths) && !Beside(zones[i], zones[j])
    ensures !KidsAlwaysAgree(ds)
  {
    assert GrantAt(ds, zones, paths, i) && GrantAt(ds, zones, paths, j);
    assert BearsAt(a, zones, paths, i) && BearsAt(a, zones, paths, j);
    var c1, c2 := NestedZonesClash(a, ds[i], zones[i], paths[i], ds[j], zones[j], paths[j]);
    var kids := SeededKids(a, ds, zones, paths);
    TwoKidsClash(ds, kids, i, j, c1, c2);
  }

  lemma TwoKidsClash(ds: seq<Delegation>, kids: seq<Table>, i: nat, j: nat, c1: Table, c2: Table)
    requires AreKids(kids, ds) && i < |kids| && j < |kids| && i != j && IsChild(c1, ds[i]) && IsChild(c2, ds[j])
    requires !Consistent(c1, c2)
    ensures !KidsAlwaysAgree(ds)
  {
    ReplaceKid(kids, ds, i, c1);
    ReplaceKid(kids[i := c1], ds, j, c2);
    var kids' := kids[i := c1][j := c2];
    assert kids'[i] == c1 && kids'[j] == c2;
    assert !KidsAgree(kids');
  }

  /** Whatever the parent and its children number, they agree with each other and the parent with itself. */
  ghost predicate AlwaysOneNumbering(a: Table, own: string, ds: seq<Delegation>)
    requires [] in a
  {
    forall names: seq<string>, kids: seq<Table> :: OneNumberingWith(a, own, ds, names, kids)
  }

  ghost predicate OneNumberingWith(a: Table, own: string, ds: seq<Delegation>, names: seq<string>, kids: seq<Table>)
    requires [] in a
  {
    AreKids(kids, WithPath(ds)) && (forall n :: n in names ==> Numberable(own, n))
    ==> Together(NumberAll(a, own, ds, names), kids)
  }

  ghost predicate Together(a: Table, kids: seq<Table>) {
    AgreesWithKids(a, kids) && KidsAgree(kids) && Consistent(a, a)
  }

  /**
   * The exact condition on a parent that has granted its zones: the numbering stays one,
   * whatever it and its children go on to number, if and only if no delegated zone lies in
   * another, the parent had nothing beneath any of them before it granted them, and the grants
   * left no counter behind the numbers in use at a place where the parent numbers.
   */
  lemma OneNumberingIff(t: Table, own: string, ds: seq<Delegation>, zones: seq<Labels>, paths: seq<Path>)
    requires Granted(t, own, ds, zones, paths) && zones != []
    ensures [] in GrantAll(t, ds).table
    ensures AlwaysOneNumbering(GrantAll(t, ds).table, own, ds)
            <==> Apart(zones) && AllClear(t, zones) && Sound(GrantAll(t, ds).table, own, ds)
  {
    var a := GrantAll(t, ds).table;
    GrantedBears(t, own, ds, zones, paths);
    KidsAgreeIff(t, own, ds, zones, paths);
    if !Apart(zones) {
      NestedRefutes(a, own, ds);
    } else if !AllClear(t, zones) {
      var i := NotClear(t, zones);
      ParentClashes(t, own, ds, zones, paths, i);
    } else if !Sound(a, own, ds) {
      UnsoundRefutes(a, own, ds, zones, paths);
    } else {
      ApartIsEnough(t, own, ds, zones, paths);
    }
  }

  lemma NestedRefutes(a: Table, own: string, ds: seq<Delegation>)
    requires [] in a && !KidsAlwaysAgree(WithPath(ds))
    ensures !AlwaysOneNumbering(a, own, ds)
  {
    var kids: seq<Table> :| AreKids(kids, WithPath(ds)) && !KidsAgree(kids);
    assert !OneNumberingWith(a, own, ds, [], kids);
  }

  lemma NotClear(t: Table, zones: seq<Labels>) returns (i: nat)
    requires !AllClear(t, zones)
    ensures i < |zones| && !Clear(t, zones[i])
  {
    var z :| z in zones && !Clear(t, z);
    i :| 0 <= i < |zones| && zones[i] == z;
  }

  lemma ApartIsEnough(t: Table, own: string, ds: seq<Delegation>, zones: seq<Labels>, paths: seq<Path>)
    requires Granted(t, own, ds, zones, paths) && zones != [] && Apart(zones) && AllClear(t, zones)
    requires Sound(GrantAll(t, ds).table, own, ds) && [] in GrantAll(t, ds).table
    ensures AlwaysOneNumbering(GrantAll(t, ds).table, own, ds)
  {
    var a := GrantAll(t, ds).table;
    GrantAllSkips(t, ds);
    forall names: seq<string>, kids: seq<Table>
      ensures OneNumberingWith(a, own, ds, names, kids)
    {
      if AreKids(kids, WithPath(ds)) && forall n :: n in names ==> Numberable(own, n) {
        assert ParentHistory(NumberAll(a, own, ds, names), own, ds, zones, paths, t, names);
        OneNumbering(NumberAll(a, own, ds, names), own, ds, zones, paths, kids);
      }
    }
  }

  /** What the parent had before the grants it still has. */
  lemma ParentClashes(t: Table, own: string, ds: seq<Delegation>, zones: seq<Labels>, paths: seq<Path>, i: nat)
    requires Granted(t, own, ds, zones, paths) && i < |zones| && !Clear(t, zones[i])
    ensures [] in GrantAll(t, ds).table && !AlwaysOneNumbering(GrantAll(t, ds).table, own, ds)
  {
    var a := GrantAll(t, ds).table;
    GrantedBears(t, own, ds, zones, paths);
    GrantAllSkips(t, ds);
    var name :| name in t && zones[i] < name;
    NamesAreMembers(t, name);
    GrantsKeepBearing(t, WithPath(ds), zones, paths, a, name, PathOf(t, name));
    NamesAreMembers(a, name);
    NumberedNonZero(a, name, |zones[i]|);
    assert GrantAt(WithPath(ds), zones, paths, i) && BearsAt(a, zones, paths, i);
    var c := IntruderClashes(WithPath(ds)[i], zones[i], paths[i], a, name);
    var kids := SeededKids(a, WithPath(ds), zones, paths);
    ClashRefutes(a, own, ds, kids, i, c);
  }

  lemma ClashRefutes(a: Table, own: string, ds: seq<Delegation>, kids: seq<Table>, i: nat, c: Table)
    requires [] in a && AreKids(kids, WithPath(ds)) && i < |kids| && IsChild(c, WithPath(ds)[i]) && !Consistent(a, c)
    ensures !AlwaysOneNumbering(a, own, ds)
  {
    ReplaceKid(kids, WithPath(ds), i, c);
    assert kids[i := c][i] == c;
    assert !OneNumberingWith(a, own, ds, [], kids[i := c]);
  }

  // ---- a counter that has fallen behind ----

  lemma {:induction false} TrimLeftShortens(s: string)
    ensures |TrimLeft(s)| <= |s|
  {
    if s != [] && IsSpace(s[0]) {
      TrimLeftShortens(s[1..]);
    }
  }

  lemma NormaliseShortens(s: string)
    ensures |Normalise(s)| <= |s|
  {
    TrimLeftShortens(s);
    TrimRightShortens(TrimLeft(s));
  }

  /** Every delegated zone is written in at most m characters. */
  predicate ShortZones(ds: seq<Delegation>, m: nat) {
    forall d :: d in ds ==> |d.zone| <= m
  }

  /** A name directly beneath a place is covered by a delegation only if the place is, or the delegation is as long. */
  lemma LongChildIsNotDelegated(ds: seq<Delegation>, p: Labels, x: Label, m: nat)
    requires GoodZone(p) && GoodLabel(x) && |x| > m && ShortZones(ds, m) && !Delegated(ds, NameOf(p))
    ensures !Delegated(ds, NameOf(p + [x]))
  {
    var n := NameOf(p + [x]);
    assert GoodZone(p + [x]) && p <= p + [x];
    ZoneText(p);
    ZoneText(p + [x]);
    PrefixContains(p, p + [x]);
    LongText(p, x);
    forall d | d in ds
      ensures !Contains(d.zone, n)
    {
      if Contains(d.zone, n) {
        NormaliseShortens(d.zone);
        ContainedIsDeeper(d.zone, n);
        CoveringZonesNest(NameOf(p), d.zone, n);
      }
    }
  }

  lemma LongText(p: Labels, x: Label)
    requires GoodZone(p)
    ensures |NameOf(p + [x])| > |x|
  {
    ReverseAppend(p, [x]);
    assert [x][1..] == [] && Reverse([x]) == [x];
    JoinAppend([x], Reverse(p));
    assert Join([x]) == x;
  }

  lemma NumbersBelow(own: string, ds: seq<Delegation>, p: Labels, x: Label, m: nat)
    requires p != [] && Numbers(own, ds, p) && GoodLabel(x) && |x| > m && ShortZones(ds, m)
    ensures var n := NameOf(p + [x]);
            Numberable(own, n) && Contains(own, n) && !Delegated(ds, n) && SplitName(n) == p + [x]
  {
    assert GoodZone(p) && GoodZone(p + [x]) && p <= p + [x];
    LongChildIsNotDelegated(ds, p, x, m);
    PrefixContains(p, p + [x]);
    ContainsIsTransitive(own, NameOf(p), NameOf(p + [x]));
    ZoneText(p + [x]);
    WrittenIsGuarded(p + [x]);
  }

  /** At p, which bears this path, the counter is no further than the number of l; no label there is longer than m. */
  ghost predicate Behind(t: Table, p: Labels, path: Path, l: Label, m: nat) {
    && [] in t && p in t && Bears(t, p, path) && |p| < MAX_DEPTH
    && p + [l] in t && 0 < t[p].next <= t[p + [l]].nid
    && forall y: Label {:trigger p + [y]} :: p + [y] in t ==> |y| <= m
  }

  /** The next name there gets the number the counter stands at. */
  lemma NumberBehind(t: Table, p: Labels, path: Path, l: Label, m: nat, x: Label)
    requires Behind(t, p, path, l, m) && |x| == m + 1
    ensures p + [x] !in t && x != l
    ensures var t' := Allocate(t, p + [x]).table;
            && t' == Insert(t, p, x, t[p].next, (t[p].next + 1) % TWO32) && Extends(t, t')
            && Bears(t', p + [x], path + [t[p].next]) && Bears(t', p + [l], path + [t[p + [l]].nid])
  {
    assert p + [x] !in t;
    InsertsChild(t, p, x);
    NextChild(t, p, x);
    var t' := Allocate(t, p + [x]).table;
    ChildBears(t, p, l, path);
    ExtendsBears(t, t', p + [l], path + [t[p + [l]].nid]);
  }

  lemma StillBehind(t: Table, p: Labels, path: Path, l: Label, m: nat, x: Label, t': Table)
    requires Behind(t, p, path, l, m) && |x| == m + 1 && t[p].next < t[p + [l]].nid
    requires t' == Insert(t, p, x, t[p].next, (t[p].next + 1) % TWO32) && Extends(t, t')
    ensures Behind(t', p, path, l, m + 1) && t'[p].next == t[p].next + 1 && t'[p + [l]].nid == t[p + [l]].nid
  {
    assert |p + [x]| == |p| + 1;
    ExtendsBears(t, t', p, path);
    forall y: Label {:trigger p + [y]} | p + [y] in t'
      ensures |y| <= m + 1
    {
      AppendInjective(p, y, p, x);
    }
  }

  /** Names that bring the counter up to a number in use, which is then borne twice. */
  lemma {:induction false} CatchesUp(t: Table, own: string, ds: seq<Delegation>, p: Labels, path: Path, l: Label, m: nat)
      returns (names: seq<string>)
    requires Behind(t, p, path, l, m) && p != [] && Numbers(own, ds, p) && ShortZones(ds, m)
    ensures forall n :: n in names ==> Numberable(own, n)
    ensures !Consistent(NumberAll(t, own, ds, names), NumberAll(t, own, ds, names))
    decreases t[p + [l]].nid - t[p].next
  {
    var x, name := Tag(m, 1), NameOf(p + [Tag(m, 1)]);
    TagIsGood(m, 1);
    NumbersBelow(own, ds, p, x, m);
    NumberBehind(t, p, path, l, m, x);
    var t' := Allocate(t, p + [x]).table;
    assert AllocateFor(t, own, ds, name) == t';
    if t[p].next == t[p + [l]].nid {
      names := [name];
      assert [name][1..] == [];
      AppendInjective(p, x, p, l);
      SamePathTwice(t', t', p + [x], p + [l], path + [t[p].next]);
    } else {
      StillBehind(t, p, path, l, m, x, t');
      var rest := CatchesUp(t', own, ds, p, path, l, m + 1);
      names := [name] + rest;
      assert names[0] == name && names[1..] == rest;
    }
  }

  lemma {:induction false} LongestLabel(names: set<Labels>) returns (m: nat)
    ensures forall p :: p in names && p != [] ==> |p[|p| - 1]| <= m
    decreases |names|
  {
    m := 0;
    if names != {} {
      var p :| p in names;
      m := LongestLabel(names - {p});
      if p != [] && |p[|p| - 1]| > m {
        m := |p[|p| - 1]|;
      }
      forall q | q in names && q != []
        ensures |q[|q| - 1]| <= m
      {
        assert q == p || q in names - {p};
      }
    }
  }

  lemma {:induction false} LongestZone(ds: seq<Delegation>) returns (m: nat)
    ensures ShortZones(ds, m)
  {
    m := 0;
    if ds != [] {
      m := LongestZone(ds[1..]);
      m := if |ds[0].zone| > m then |ds[0].zone| else m;
    }
  }

  lemma FallsBehind(a: Table, own: string, ds: seq<Delegation>) returns (p: Labels, l: Label, m: nat)
    requires WellNumbered(a) && !Sound(a, own, ds)
    ensures p != [] && Numbers(own, ds, p) && HasName(a, p) && Behind(a, p, PathOf(a, p), l, m)
  {
    p :| p in a && Numbers(own, ds, p) && !Ahead(a, p);
    l :| p + [l] in a && a[p + [l]].nid >= Bound(a[p].next);
    m := LongestLabel(a.Keys);
    NamesAreMembers(a, p);
    RootIsNotNumbered(own, ds);
    LabelsAreShort(a.Keys, p, m);
  }

  lemma RootIsNotNumbered(own: string, ds: seq<Delegation>)
    ensures !Numbers(own, ds, [])
  {
    assert NameOf([]) == "";
  }

  lemma LabelsAreShort(names: set<Labels>, p: Labels, m: nat)
    requires forall q :: q in names && q != [] ==> |q[|q| - 1]| <= m
    ensures forall y: Label {:trigger p + [y]} :: p + [y] in names ==> |y| <= m
  {
    forall y: Label {:trigger p + [y]} | p + [y] in names
      ensures |y| <= m
    {
      assert (p + [y])[|p + [y]| - 1] == y;
    }
  }

  lemma BehindFurther(t: Table, p: Labels, path: Path, l: Label, m: nat, n: nat)
    requires Behind(t, p, path, l, m) && m <= n
    ensures Behind(t, p, path, l, n)
  {
  }

  /** Where a registry numbers with such a counter, it can come to give one path to two names. */
  lemma UnsoundClashes(a: Table, own: string, ds: seq<Delegation>) returns (names: seq<string>)
    requires WellNumbered(a) && !Sound(a, own, ds)
    ensures forall n :: n in names ==> Numberable(own, n)
    ensures !Consistent(NumberAll(a, own, ds, names), NumberAll(a, own, ds, names))
  {
    var p, l, m1 := FallsBehind(a, own, ds);
    var m2 := LongestZone(ds);
    var m: nat := if m1 > m2 then m1 else m2;
    BehindFurther(a, p, PathOf(a, p), l, m1, m);
    names := CatchesUp(a, own, ds, p, PathOf(a, p), l, m);
  }

  lemma UnsoundRefutes(a: Table, own: string, ds: seq<Delegation>, zones: seq<Labels>, paths: seq<Path>)
    requires WellNumbered(a) && !Sound(a, own, ds) && Labelled(WithPath(ds), zones, paths) && AllBear(a, zones, paths)
    ensures !AlwaysOneNumbering(a, own, ds)
  {
    var names := UnsoundClashes(a, own, ds);
    var kids := SeededKids(a, WithPath(ds), zones, paths);
    assert !OneNumberingWith(a, own, ds, names, kids);
  }

  // ---- two accepted prefixes with which it happens ----

  lemma GraftTwo(o: Label, a: Label, nid: uint32)
    requires nid != 0
    ensures Graft(NewTable(), [o, a], [1, nid])
            == Update(map[[] := Slot(0, 2), [o] := Slot(1, (nid + 1) % TWO32), [o, a] := Slot(nid, 1)], None)
  {
    var t1: Table := map[[] := Slot(0, 2), [o] := Slot(1, 1)];
    var t2: Table := map[[] := Slot(0, 2), [o] := Slot(1, (nid + 1) % TWO32), [o, a] := Slot(nid, 1)];
    assert [] + [o] == [o] && [o] + [a] == [o, a] && [o, a][1..] == [a] && [a][1..] == [];
    assert [1, nid][1..] == [nid] && [nid][1..] == [];
    assert !NidTaken(NewTable(), [], 1) && !NidTaken(t1, [o], nid);
    assert Insert(NewTable(), [], o, 1, 2) == t1 && Insert(t1, [o], a, nid, (nid + 1) % TWO32) == t2;
    assert GraftFrom(t2, [o, a], [], []) == Update(t2, None);
    assert GraftFrom(t1, [o], [a], [nid]) == Update(t2, None);
  }

  lemma SecondIsFree(t: Table, o: Label, a: Label)
    requires t == map[[] := Slot(0, 2), [o] := Slot(1, 0), [o, a] := Slot(0xFFFF_FFFF, 1)]
    ensures !NidTaken(t, [o], 0xFFFF_FFFE)
  {
  }

  lemma GraftSecond(t: Table, o: Label, a: Label, b: Label)
    requires a != b && t == map[[] := Slot(0, 2), [o] := Slot(1, 0), [o, a] := Slot(0xFFFF_FFFF, 1)]
    ensures Graft(t, [o, b], [1, 0xFFFF_FFFE])
            == Update(map[[] := Slot(0, 2), [o] := Slot(1, 0xFFFF_FFFF), [o, a] := Slot(0xFFFF_FFFF, 1),
                          [o, b] := Slot(0xFFFF_FFFE, 1)], None)
  {
    var path: Path := [1, 0xFFFF_FFFE];
    assert [] + [o] == [o] && [o, b][1..] == [b] && path[1..] == [0xFFFF_FFFE];
    GraftLeaf(t, o, a, b);
  }

  lemma GraftLeaf(t: Table, o: Label, a: Label, b: Label)
    requires a != b && t == map[[] := Slot(0, 2), [o] := Slot(1, 0), [o, a] := Slot(0xFFFF_FFFF, 1)]
    ensures GraftFrom(t, [o], [b], [0xFFFF_FFFE])
            == Update(map[[] := Slot(0, 2), [o] := Slot(1, 0xFFFF_FFFF), [o, a] := Slot(0xFFFF_FFFF, 1),
                          [o, b] := Slot(0xFFFF_FFFE, 1)], None)
  {
    var t': Table := map[[] := Slot(0, 2), [o] := Slot(1, 0xFFFF_FFFF), [o, a] := Slot(0xFFFF_FFFF, 1),
                         [o, b] := Slot(0xFFFF_FFFE, 1)];
    assert [o] + [b] == [o, b] && [b][1..] == [] && [0xFFFF_FFFE as uint32][1..] == [];
    assert [o, a][1] != [o, b][1];
    SecondIsFree(t, o, a);
    assert Insert(t, [o], b, 0xFFFF_FFFE, 0xFFFF_FFFF) == t';
    assert GraftFrom(t', [o, b], [], []) == Update(t', None);
  }

  lemma NumberThird(t: Table, o: Label, a: Label, b: Label, c: Label)
    requires a != b && c != a && c != b
    requires t == map[[] := Slot(0, 2), [o] := Slot(1, 0xFFFF_FFFF), [o, a] := Slot(0xFFFF_FFFF, 1),
                      [o, b] := Slot(0xFFFF_FFFE, 1)]
    ensures Bears(Allocate(t, [o, c]).table, [o, c], [1, 0xFFFF_FFFF])
  {
    assert [o, c][1] != [o, a][1] && [o, c][1] != [o, b][1] && [o] + [c] == [o, c];
    OneLevelBears(t, o);
    NextChild(t, [o], c);
    assert [1 as uint32] + [0xFFFF_FFFF] == [1, 0xFFFF_FFFF];
  }

  lemma SiblingZones(o: Label, a: Label, b: Label)
    requires GoodLabel(o) && GoodLabel(a) && GoodLabel(b) && a != b
    ensures GoodZone([o]) && GoodZone([o, a]) && GoodZone([o, b])
    ensures IsNarrower(NameOf([o, a]), NameOf([o])) && Contains(NameOf([o]), NameOf([o, a]))
    ensures !Contains(NameOf([o, a]), NameOf([o, b]))
  {
    assert [o, a][1] != [o, b][1];
    assert GoodZone([o]) && GoodZone([o, a]) && GoodZone([o, b]);
    ContainsIsPrefix([o], [o, a]);
    ContainsIsPrefix([o, a], [o, b]);
  }

  lemma SiblingsAreApart(o: Label, a: Label, b: Label)
    requires a != b
    ensures Apart([[o, a], [o, b]])
  {
    assert [o, a][1] != [o, b][1];
    assert !([o, a] <= [o, b]) && !([o, b] <= [o, a]);
  }

  /** Both entries are accepted and granted to zones that are apart and empty. */
  lemma LastIdentifierIsGranted(o: Label, a: Label, b: Label, d: Delegation, e: Delegation) returns (t: Table)
    requires GoodLabel(o) && GoodLabel(a) && GoodLabel(b) && a != b
    requires d.zone == NameOf([o, a]) && d.path == P.String([1, 0xFFFF_FFFF])
    requires e.zone == NameOf([o, b]) && e.path == P.String([1, 0xFFFF_FFFE])
    ensures GrantAll(NewTable(), [d, e]) == Granting(t, None) && GoodGrant(d, [o, a], [1, 0xFFFF_FFFF])
    ensures t == map[[] := Slot(0, 2), [o] := Slot(1, 0xFFFF_FFFF), [o, a] := Slot(0xFFFF_FFFF, 1),
                     [o, b] := Slot(0xFFFF_FFFE, 1)]
    ensures Granted(NewTable(), NameOf([o]), [d, e], [[o, a], [o, b]], [[1, 0xFFFF_FFFF], [1, 0xFFFF_FFFE]])
    ensures Apart([[o, a], [o, b]]) && AllClear(NewTable(), [[o, a], [o, b]])
  {
    SiblingZones(o, a, b);
    SiblingZones(o, b, a);
    SiblingsAreApart(o, a, b);
    EntryIsGood(d, [o, a], [1, 0xFFFF_FFFF]);
    EntryIsGood(e, [o, b], [1, 0xFFFF_FFFE]);
    FirstGrantSucceeds([o, a], [1, 0xFFFF_FFFF], d);
    GraftTwo(o, a, 0xFFFF_FFFF);
    var t1 := Graft(NewTable(), [o, a], [1, 0xFFFF_FFFF]).table;
    ZoneText([o, b]);
    GraftSecond(t1, o, a, b);
    t := Graft(t1, [o, b], [1, 0xFFFF_FFFE]).table;
    assert GrantPrefix(t1, e.zone, e.path) == Granting(t, None);
    BothGrants(NewTable(), d, t1, e, t);
    NewIsReplica(NewTable());
    BothBeneath(d, e, NameOf([o]));
    TwoLabelled(d, [o, a], [1, 0xFFFF_FFFF], e, [o, b], [1, 0xFFFF_FFFE]);
  }

  /**
   * A delegation file that loads and is granted in full: a.o with the prefix 1.4294967295 and b.o
   * with 1.4294967294. The first name the parent registers beside them is given the path of a.o.
   */
  lemma LastIdentifierClashes(o: Label, a: Label, b: Label, c: Label, d: Delegation, e: Delegation, validKey: string -> bool)
    requires GoodLabel(o) && GoodLabel(a) && GoodLabel(b) && GoodLabel(c) && a != b && c != a && c != b
    requires d.zone == NameOf([o, a]) && d.path == P.String([1, 0xFFFF_FFFF])
    requires e.zone == NameOf([o, b]) && e.path == P.String([1, 0xFFFF_FFFE])
    requires validKey(d.key) && validKey(e.key) && d.endpoint != "" && e.endpoint != ""
    ensures Acceptable(d, NameOf([o]), validKey) && Acceptable(e, NameOf([o]), validKey)
    ensures var granted, own := GrantAll(NewTable(), [d, e]), NameOf([o]);
            && granted.error.None? && [] in granted.table && IsChild(Seeded(d), d)
            && Numberable(own, NameOf([o, c])) && Apart([[o, a], [o, b]]) && AllClear(NewTable(), [[o, a], [o, b]])
            && !Consistent(NumberAll(granted.table, own, [d, e], [NameOf([o, c])]), Seeded(d))
  {
    var t := LastIdentifierIsGranted(o, a, b, d, e);
    SiblingZones(o, a, b);
    SiblingZones(o, b, a);
    SeededChild([o, a], [1, 0xFFFF_FFFF], d, []);
    SeedWorks([o, a], [1, 0xFFFF_FFFF], d);
    NumberThird(t, o, a, b, c);
    NumbersBeside(t, o, a, b, c, d, e);
    assert [o, c][1] != [o, a][1];
    SamePathTwice(Allocate(t, [o, c]).table, Seeded(d), [o, c], [o, a], [1, 0xFFFF_FFFF]);
  }

  lemma NumbersBeside(t: Table, o: Label, a: Label, b: Label, c: Label, d: Delegation, e: Delegation)
    requires [] in t && GoodLabel(o) && GoodLabel(a) && GoodLabel(b) && GoodLabel(c) && c != a && c != b
    requires d.zone == NameOf([o, a]) && e.zone == NameOf([o, b])
    ensures Numberable(NameOf([o]), NameOf([o, c]))
    ensures NumberAll(t, NameOf([o]), [d, e], [NameOf([o, c])]) == Allocate(t, [o, c]).table
  {
    SiblingZones(o, c, a);
    SiblingZones(o, a, c);
    SiblingZones(o, b, c);
    ZoneText([o, c]);
    WrittenIsGuarded([o, c]);
    var name := NameOf([o, c]);
    assert !Delegated([d, e], name);
    assert AllocateFor(t, NameOf([o]), [d, e], name) == Allocate(t, [o, c]).table;
    assert [name][1..] == [];
  }

  // ---- nested grants happen ----

  lemma GrantAgain(t: Table, zone: Labels, path: Path, e: Delegation)
    requires WellNumbered(t) && Bears(t, zone, path) && EntryFor(e, zone, path)
    ensures GrantPrefix(t, e.zone, e.path) == Granting(t, None)
  {
    EntryIsGood(e, zone, path);
    ZoneText(zone);
    GraftAgain(t, [], zone);
  }

  lemma BothGrants(t: Table, d: Delegation, t1: Table, e: Delegation, a: Table)
    requires [] in t && [] in t1 && d.path != "" && e.path != ""
    requires GrantPrefix(t, d.zone, d.path) == Granting(t1, None) && GrantPrefix(t1, e.zone, e.path) == Granting(a, None)
    ensures GrantAll(t, [d, e]) == Granting(a, None) && WithPath([d, e]) == [d, e]
  {
    OneGrant(t1, e, a);
    assert [d, e][1..] == [e] && [d] + [e] == [d, e];
  }

  /** The grant of a zone, and then that of a zone around it. */
  lemma GrantBoth(zone: Labels, path: Path, k: nat, d: Delegation, e: Delegation)
    requires EntryFor(d, zone, path) && 0 < k < |zone| && EntryFor(e, zone[..k], path[..k])
    ensures GrantAll(NewTable(), [d, e]).error.None? && WithPath([d, e]) == [d, e]
    ensures Labelled([d, e], [zone, zone[..k]], [path, path[..k]])
  {
    var a := Graft(NewTable(), zone, path).table;
    EntryIsGood(d, zone, path);
    EntryIsGood(e, zone[..k], path[..k]);
    FirstGrantSucceeds(zone, path, d);
    NewIsReplica(NewTable());
    GrantWorks(NewTable(), d, zone, path);
    RootPath(a, zone, k);
    GrantAgain(a, zone[..k], path[..k], e);
    BothGrants(NewTable(), d, a, e, a);
    TwoLabelled(d, zone, path, e, zone[..k], path[..k]);
  }

  /** A registry loads delegations of nested zones and grants both, so the condition can fail. */
  lemma NestedGrantsExist(zone: Labels, path: Path, j: nat, k: nat, d: Delegation, e: Delegation, validKey: string -> bool)
    requires EntryFor(d, zone, path) && 0 < j < k < |zone| && EntryFor(e, zone[..k], path[..k])
    requires validKey(d.key) && validKey(e.key) && d.endpoint != "" && e.endpoint != ""
    ensures var own := NameOf(zone[..j]);
            && Acceptable(d, own, validKey) && Acceptable(e, own, validKey)
            && Granted(NewTable(), own, [d, e], [zone, zone[..k]], [path, path[..k]])
    ensures !Apart([zone, zone[..k]])
  {
    GrantBoth(zone, path, k, d, e);
    NewIsReplica(NewTable());
    ContainsIsPrefix(zone[..j], zone);
    ContainsIsPrefix(zone[..j], zone[..k]);
    BothBeneath(d, e, NameOf(zone[..j]));
    NestedPair(zone, zone[..k]);
  }

  lemma BothBeneath(d: Delegation, e: Delegation, own: string)
    requires IsNarrower(d.zone, own) && IsNarrower(e.zone, own)
    ensures Beneath([d, e], own)
  {
  }

  lemma TwoLabelled(d: Delegation, zone: Labels, path: Path, e: Delegation, z: Labels, p: Path)
    requires GoodGrant(d, zone, path) && GoodGrant(e, z, p)
    ensures Labelled([d, e], [zone, z], [path, p])
  {
    assert GrantAt([d, e], [zone, z], [path, p], 0) && GrantAt([d, e], [zone, z], [path, p], 1);
  }

  lemma NestedPair(zone: Labels, z: Labels)
    requires z <= zone && |z| < MAX_DEPTH
    ensures !Apart([zone, z])
  {
    assert !BesideAt([zone, z], 1, 0);
  }

  // ---- every other name does harm ----

  lemma NumbersUnguarded(o: Labels, name: string, zone: Labels, path: Path, d: Delegation)
    requires GoodZone(o) && !Numberable(NameOf(o), name) && GoodGrant(d, zone, path) && |zone| == |path|
    requires SplitName(name) != [] && zone == SplitName(name)[..|SplitName(name)| - 1]
    ensures [] in Seeded(d)
    ensures var a := NumberAll(Seeded(d), NameOf(o), [d], [name]);
            Bears(a, zone, path) && Bears(a, SplitName(name), path + [1])
  {
    var s, own := SplitName(name), NameOf(o);
    UnguardedIsDeep(o, name);
    SeedWorks(zone, path, d);
    SeededCounter(zone, path, d);
    var t := Seeded(d);
    var l := s[|s| - 1];
    assert s == zone + [l] && !(zone + [l] <= zone);
    NextChild(t, zone, l);
    assert !Delegated([d], name);
    assert AllocateFor(t, own, [d], name) == Allocate(t, s).table;
    AllocateForExtends(t, own, [d], name);
    assert [name][1..] == [];
    ExtendsBears(t, Allocate(t, s).table, zone, path);
  }

  /**
   * For every name that is neither guarded nor outside the own zone, some registry of that zone
   * has loaded and granted one delegation and, once it has numbered this name, disagrees with a
   * child of that delegation.
   */
  lemma UnguardedNameClashes(o: Labels, name: string, endpoint: string, key: string, validKey: string -> bool)
      returns (d: Delegation, zone: Labels, path: Path, a: Table, c: Table)
    requires GoodZone(o) && !Numberable(NameOf(o), name) && validKey(key) && endpoint != ""
    ensures Acceptable(d, NameOf(o), validKey) && d.endpoint == endpoint && d.key == key
    ensures [] in a && IsParent(a, NameOf(o), [d], [zone], [path]) && IsChild(c, d)
    ensures !Consistent(NumberAll(a, NameOf(o), [d], [name]), c)
  {
    UnguardedIsDeep(o, name);
    var s := SplitName(name);
    zone, path := s[..|s| - 1], seq(|s| - 1, _ => 1);
    ContainedHasPrefix(o, name);
    ContainsIsPrefix(o, zone);
    assert zone[..|o|] == o;
    d := Delegation(NameOf(zone), endpoint, key, P.String(path));
    EveryGrantSucceeds(zone, path, |o|, d, validKey);
    SeedWorks(zone, path, d);
    a := Seeded(d);
    NumbersUnguarded(o, name, zone, path, d);
    assert (path + [1])[|zone|] == 1;
    c := IntruderClashes(d, zone, path, NumberAll(a, NameOf(o), [d], [name]), s);
  }
}
