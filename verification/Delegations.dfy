/** The delegation table of a registry: what may be delegated, and which delegation covers a name. */
module Delegations {
  import opened Basics
  import opened Zone

  datatype Delegation = Delegation(zone: string, endpoint: string, key: string, path: string)

  datatype LoadError = NotBeneath(zone: string) | InvalidKey(zone: string) | NoEndpoint(zone: string)

  predicate Acceptable(d: Delegation, own: string, validKey: string -> bool) {
    IsNarrower(d.zone, own) && validKey(d.key) && d.endpoint != ""
  }

  /** One entry: strictly beneath the own zone, with a key and an endpoint. */
  method CheckEntry(d: Delegation, own: string, validKey: string -> bool) returns (r: Option<LoadError>)
    ensures r.None? <==> Acceptable(d, own, validKey)
    ensures r.Some? ==> r.value.zone == d.zone
  {
    if !IsNarrower(d.zone, own) {
      return Some(NotBeneath(d.zone));
    }
    if !validKey(d.key) {
      return Some(InvalidKey(d.zone));
    }
    if d.endpoint == "" {
      return Some(NoEndpoint(d.zone));
    }
    return None;
  }

  /** Refuses the whole table for one entry that is not strictly beneath the own zone, or not usable. */
  method LoadDelegations(ds: seq<Delegation>, own: string, validKey: string -> bool) returns (r: Option<LoadError>)
    ensures r.None? <==> forall d :: d in ds ==> Acceptable(d, own, validKey)
    ensures r.Some? ==> exists d :: d in ds && !Acceptable(d, own, validKey) && d.zone == r.value.zone
  {
    for i := 0 to |ds|
      invariant forall d :: d in ds[..i] ==> Acceptable(d, own, validKey)
    {
      assert ds[i] in ds && ds[..i + 1] == ds[..i] + [ds[i]];
      r := CheckEntry(ds[i], own, validKey);
      if r.Some? {
        return;
      }
    }
    assert ds[..|ds|] == ds;
    return None;
  }

  predicate Delegated(ds: seq<Delegation>, name: string) {
    exists d :: d in ds && Contains(d.zone, name)
  }

  /** The most specific delegation lies in every other one that covers the name. */
  predicate MostSpecific(ds: seq<Delegation>, name: string, best: Option<Delegation>) {
    && (best.Some? <==> Delegated(ds, name))
    && (best.Some? ==> best.value in ds && Contains(best.value.zone, name))
    && (best.Some? ==> forall d :: d in ds && Contains(d.zone, name) ==> Contains(d.zone, best.value.zone))
  }

  lemma DeeperIsMoreSpecific(ds: seq<Delegation>, name: string, best: Option<Delegation>, d: Delegation)
    requires MostSpecific(ds, name, best) && Contains(d.zone, name)
    requires best.Some? ==> Depth(d.zone) > Depth(best.value.zone)
    ensures MostSpecific(ds + [d], name, Some(d))
  {
    assert d in ds + [d];
    ContainedIsDeeper(d.zone, name);
    if best.Some? {
      CoveringZonesNest(d.zone, best.value.zone, name);
    }
    forall e | e in ds + [d] && Contains(e.zone, name)
      ensures Contains(e.zone, d.zone)
    {
      if e in ds {
        ContainsIsTransitive(e.zone, best.value.zone, d.zone);
      } else {
        ContainsIsReflexive(d.zone);
      }
    }
  }

  lemma ShallowerIsNot(ds: seq<Delegation>, name: string, best: Option<Delegation>, d: Delegation)
    requires MostSpecific(ds, name, best)
    requires Contains(d.zone, name) ==> best.Some? && Depth(d.zone) <= Depth(best.value.zone)
    ensures MostSpecific(ds + [d], name, best)
  {
    if Contains(d.zone, name) {
      CoveringZonesNest(best.value.zone, d.zone, name);
    }
    if best.Some? {
      assert best.value in ds + [d];
    }
  }

  method DelegationFor(ds: seq<Delegation>, name: string) returns (best: Option<Delegation>)
    ensures MostSpecific(ds, name, best)
  {
    best := None;
    for i := 0 to |ds|
      invariant MostSpecific(ds[..i], name, best)
    {
      var d := ds[i];
      assert ds[..i + 1] == ds[..i] + [d];
      if Contains(d.zone, name) && (best.None? || Depth(d.zone) > Depth(best.value.zone)) {
        DeeperIsMoreSpecific(ds[..i], name, best, d);
        best := Some(d);
      } else {
        ShallowerIsNot(ds[..i], name, best, d);
      }
    }
    assert ds[..|ds|] == ds;
  }
}
