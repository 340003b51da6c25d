/** A router adopting the listing of an authority, name by name as text. */
module NsReplica {
  import opened Basics
  import opened Names
  import opened NsGraft
  import opened NsListing
  import opened NsTree
  import T = NsTable

  /** What grafting the lines asks for. */
  function Entries(lines: seq<Line>): (es: seq<Entry>)
    ensures |es| == |lines|
    ensures forall i :: 0 <= i < |lines| ==> es[i] == Entry(SplitName(lines[i].name), lines[i].path)
  {
    seq(|lines|, i requires 0 <= i < |lines| => Entry(SplitName(lines[i].name), lines[i].path))
  }

  lemma {:induction false} AdoptOneMore(t: T.Table, es: seq<Entry>, e: Entry)
    requires [] in t && Adopt(t, es).error.None? && [] in Adopt(t, es).table
    ensures Adopt(t, es + [e]) == T.Graft(Adopt(t, es).table, e.name, e.path)
    decreases |es|
  {
    if es == [] {
      assert [e][1..] == [] && es + [e] == [e];
      GraftKeepsRoot(t, e.name, e.path);
    } else {
      assert (es + [e])[0] == es[0] && (es + [e])[1..] == es[1..] + [e];
      GraftKeepsRoot(t, es[0].name, es[0].path);
      AdoptOneMore(T.Graft(t, es[0].name, es[0].path).table, es[1..], e);
    }
  }

  lemma {:induction false} AdoptStops(t: T.Table, es: seq<Entry>, more: seq<Entry>)
    requires [] in t && Adopt(t, es).error.Some?
    ensures Adopt(t, es + more) == Adopt(t, es)
    decreases |es|
  {
    assert (es + more)[0] == es[0] && (es + more)[1..] == es[1..] + more;
    GraftKeepsRoot(t, es[0].name, es[0].path);
    if T.Graft(t, es[0].name, es[0].path).error.None? {
      AdoptStops(T.Graft(t, es[0].name, es[0].path).table, es[1..], more);
    }
  }

  /** The adoption of `lines` by t0 has grafted i of them, and the table is now t. */
  ghost predicate Adopting(t0: T.Table, t: T.Table, lines: seq<Line>, i: nat) {
    i <= |lines| && [] in t0 && [] in t && Adopt(t0, Entries(lines)[..i]) == T.Update(t, None)
  }

  lemma EntriesSplit(es: seq<Entry>, i: nat)
    requires i < |es|
    ensures es[..i + 1] == es[..i] + [es[i]] && es == es[..i + 1] + es[i + 1..]
  {
  }

  lemma AdoptLine(t0: T.Table, t: T.Table, lines: seq<Line>, i: nat)
    requires Adopting(t0, t, lines, i) && i < |lines|
    ensures var u := T.Graft(t, SplitName(lines[i].name), lines[i].path);
            if u.error.Some? then Adopt(t0, Entries(lines)) == u else Adopting(t0, u.table, lines, i + 1)
  {
    var es := Entries(lines);
    EntriesSplit(es, i);
    AdoptOneMore(t0, es[..i], es[i]);
    GraftKeepsRoot(t, es[i].name, es[i].path);
    var u := Adopt(t0, es[..i + 1]);
    assert u == T.Graft(t, SplitName(lines[i].name), lines[i].path);
    if u.error.Some? {
      AdoptStops(t0, es[..i + 1], es[i + 1..]);
    }
  }

  /** Grafts every line; the first refusal ends the adoption and keeps what came before it. */
  method AdoptNamespace(ns: Tree, lines: seq<Line>) returns (r: Option<T.NsError>)
    requires ns.Valid()
    modifies ns, ns.repr
    ensures ns.Valid() && forall n :: n in ns.repr ==> n in old(ns.repr) || fresh(n)
    ensures Adopt(old(ns.Table()), Entries(lines)) == T.Update(ns.Table(), r)
  {
    for i := 0 to |lines|
      invariant ns.Valid() && forall n :: n in ns.repr ==> n in old(ns.repr) || fresh(n)
      invariant Adopting(old(ns.Table()), ns.Table(), lines, i)
    {
      AdoptLine(old(ns.Table()), ns.Table(), lines, i);
      r := ns.Graft(lines[i].name, lines[i].path);
      if r.Some? {
        return;
      }
    }
    assert Entries(lines)[..|lines|] == Entries(lines);
    return None;
  }

  // ---- what a router holds after adopting a listing ----

  lemma LineIsEntry(t: T.Table, e: Line)
    requires T.WellNumbered(t) && WellNamed(t) && Listed(t, e)
    ensures IsEntry(t, Entry(SplitName(e.name), e.path))
    ensures NameOf(SplitName(e.name)) == e.name
  {
    var name :| IsLine(t, name, e);
    T.NamesAreMembers(t, name);
    NameRoundTrip(name);
  }

  lemma EntryIsThere(t: T.Table, ls: seq<Line>, lines: seq<Line>, name: T.Labels)
    requires T.WellNumbered(t) && WellNamed(t) && IsListing(t, ls) && forall e :: e in ls ==> e in lines
    requires T.HasName(t, name) && name != []
    ensures Entry(name, T.PathOf(t, name)) in Entries(lines)
  {
    T.NamesAreMembers(t, name);
    NameRoundTrip(name);
    var e := Line(NameOf(name), T.PathOf(t, name));
    assert e in ls;
    var i :| 0 <= i < |lines| && lines[i] == e;
    assert Entries(lines)[i] == Entry(name, T.PathOf(t, name));
  }

  lemma LinesAreEntries(t: T.Table, ls: seq<Line>, lines: seq<Line>)
    requires T.WellNumbered(t) && WellNamed(t) && IsListing(t, ls) && forall e :: e in lines ==> e in ls
    ensures forall e :: e in Entries(lines) ==> IsEntry(t, e)
  {
    forall e | e in Entries(lines)
      ensures IsEntry(t, e)
    {
      var i :| 0 <= i < |lines| && Entries(lines)[i] == e;
      assert lines[i] in lines && lines[i] in ls;
      LineIsEntry(t, lines[i]);
    }
  }

  /**
   * Publishing and adopting a table loses nothing. Take the listing an authority publishes,
   * put its lines in any order and repeat them as often as you like: a router that starts
   * empty accepts every line, resolves every name exactly as the authority does, and would
   * publish the very same listing; adopting the lines again changes nothing.
   */
  lemma ListingReplicates(t: T.Table, ls: seq<Line>, lines: seq<Line>)
    requires T.WellNumbered(t) && WellNamed(t) && IsListing(t, ls)
    requires forall e :: e in lines <==> e in ls
    ensures var u := Adopt(T.NewTable(), Entries(lines));
            && u.error.None?
            && (forall name :: T.Resolve(u.table, name) == T.Resolve(t, name))
            && (forall ls' :: IsListing(u.table, ls') ==> ls' == ls)
            && [] in u.table && Adopt(u.table, Entries(lines)) == T.Update(u.table, None)
  {
    var es := Entries(lines);
    LinesAreEntries(t, ls, lines);
    forall name | T.HasName(t, name) && name != []
      ensures Entry(name, T.PathOf(t, name)) in es
    {
      EntryIsThere(t, ls, lines, name);
    }
    NewIsReplica(t);
    AdoptWorks(T.NewTable(), t, es);
    ReplicaIsExact(t, es);
    var d := Adopt(T.NewTable(), es).table;
    forall ls' | IsListing(d, ls')
      ensures ls' == ls
    {
      ListingIsCanonical(d, t, ls', ls);
    }
  }

  // ---- names stay well formed ----

  lemma PrefixIsGood(p: T.Labels, name: T.Labels)
    requires GoodLabels(name) && p <= name
    ensures GoodLabels(p)
  {
    forall i | 0 <= i < |p|
      ensures GoodLabel(p[i])
    {
      assert p[i] == name[i];
    }
  }

  lemma AddedNamesAreGood(t: T.Table, t': T.Table, fqdn: string)
    requires WellNamed(t) && T.AddsOnly(t, t', SplitName(fqdn))
    ensures WellNamed(t')
  {
    SplitNameIsGood(fqdn);
    forall p | p in t'
      ensures GoodLabels(p)
    {
      if p !in t {
        PrefixIsGood(p, SplitName(fqdn));
      }
    }
  }

  /** Whatever text is registered or grafted, the names in the table stay well formed. */
  lemma UpdatesKeepNames(t: T.Table, fqdn: string, path: T.Path)
    requires T.WellNumbered(t) && WellNamed(t)
    ensures WellNamed(T.Allocate(t, SplitName(fqdn)).table)
    ensures WellNamed(T.Graft(t, SplitName(fqdn), path).table)
    ensures WellNamed(T.Forget(t, SplitName(fqdn)).table)
  {
    T.AllocateIsAllOrNothing(t, SplitName(fqdn));
    AddedNamesAreGood(t, T.Allocate(t, SplitName(fqdn)).table, fqdn);
    GraftWorks(t, SplitName(fqdn), path);
    AddedNamesAreGood(t, T.Graft(t, SplitName(fqdn), path).table, fqdn);
  }
}
