/** The registry's updates of its own tree: seeding, granting and numbering names. */
module RegistryNids {
  import opened Basics
  import opened Delegations
  import opened Federation
  import opened Names
  import opened NsTree
  import opened Zone
  import P = NsPath
  import T = NsTable

  method GraftPrefix(t: Tree, zone: string, dotted: string) returns (r: Option<GrantError>)
    requires t.Valid()
    modifies t, t.repr
    ensures t.Valid() && forall n :: n in t.repr ==> n in old(t.repr) || fresh(n)
    ensures GrantPrefix(old(t.Table()), zone, dotted) == Granting(t.Table(), r)
  {
    var p := P.Parse(dotted);
    if p.Err? {
      return Some(BadPath(p.error));
    }
    if |p.value| != Depth(zone) {
      return Some(WrongDepth(|p.value|, Depth(zone)));
    }
    var e := t.Graft(zone, p.value);
    return if e.Some? then Some(Refused(e.value)) else None;
  }

  method SeedZonePrefix(t: Tree, zone: string, dotted: string) returns (r: Option<GrantError>)
    requires t.Valid()
    modifies t, t.repr
    ensures t.Valid() && forall n :: n in t.repr ==> n in old(t.repr) || fresh(n)
    ensures SeedPrefix(old(t.Table()), zone, dotted) == Granting(t.Table(), r)
  {
    if dotted == "" {
      return None;
    }
    if zone == "" {
      return Some(NoZone);
    }
    r := GraftPrefix(t, zone, dotted);
  }

  lemma GrantNext(t: T.Table, ds: seq<Delegation>, i: nat)
    requires i < |ds| && [] in t
    ensures ds[i].path == "" ==> GrantAll(t, ds[i..]) == GrantAll(t, ds[i + 1..])
    ensures ds[i].path != "" ==>
              var g := GrantPrefix(t, ds[i].zone, ds[i].path);
              [] in g.table && GrantAll(t, ds[i..]) == if g.error.Some? then g else GrantAll(g.table, ds[i + 1..])
  {
    GrantKeepsRoot(t, ds[i].zone, ds[i].path);
    assert ds[i..][0] == ds[i] && ds[i..][1..] == ds[i + 1..];
  }

  /** Reserves the prefix of every delegation that has one; the first refusal is a startup failure. */
  method GrantDelegationPrefixes(t: Tree, ds: seq<Delegation>) returns (r: Option<GrantError>)
    requires t.Valid() && [] in t.Table()
    modifies t, t.repr
    ensures t.Valid() && forall n :: n in t.repr ==> n in old(t.repr) || fresh(n)
    ensures GrantAll(old(t.Table()), ds) == Granting(t.Table(), r)
  {
    for i := 0 to |ds|
      invariant t.Valid() && forall n :: n in t.repr ==> n in old(t.repr) || fresh(n)
      invariant [] in t.Table() && GrantAll(t.Table(), ds[i..]) == GrantAll(old(t.Table()), ds)
    {
      GrantNext(t.Table(), ds, i);
      if ds[i].path != "" {
        r := GraftPrefix(t, ds[i].zone, ds[i].path);
        if r.Some? {
          return;
        }
      }
    }
    assert ds[|ds|..] == [];
    return None;
  }

  /** Numbers a freshly bound name, if this registry is the one to number it. */
  method AllocateName(t: Tree, own: string, ds: seq<Delegation>, name: string)
    requires t.Valid() && T.WellNumbered(t.Table())
    requires (own == "" || Contains(own, name)) && !Delegated(ds, name) ==> T.SafeToAllocate(t.Table(), SplitName(name))
    modifies t, t.repr
    ensures t.Valid() && forall n :: n in t.repr ==> n in old(t.repr) || fresh(n)
    ensures t.Table() == AllocateFor(old(t.Table()), own, ds, name)
  {
    if own != "" && !Contains(own, name) {
      return;
    }
    var d := DelegationFor(ds, name);
    if d.Some? {
      return;
    }
    var r := t.Allocate(name);
  }
}
