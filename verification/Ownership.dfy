/** Who owns a name: the table of bindings of a registry, and what can change an owner. */
module Ownership {
  import opened Basics

  const SECOND: int := 1_000_000_000
  const STALE_AFTER: int := 60 * SECOND
  const BINDING_RETENTION: int := 365 * 24 * 3600 * SECOND

  datatype Record = Record(key: string, endpoint: Option<string>, lastSeen: int)

  type Bindings = map<string, Record>

  datatype BindResult = BindNew | BindRefreshed | BindRejected

  /** A transfer as its signature covers it. */
  datatype Transfer = Transfer(name: string, newKey: string, ts: int, nonce: string)

  datatype Library = Library(verify: (string, Transfer, string) -> bool, validKey: string -> bool)

  datatype RebindError = InvalidKey | NotBound | SameKey | NotAuthorised

  // ---- the operations on bindings ----

  function Bind(b: Bindings, name: string, key: string, endpoint: string, now: int): (Bindings, BindResult) {
    if name in b && b[name].key != key then (b, BindRejected)
    else (b[name := Record(key, Some(endpoint), now)], if name in b then BindRefreshed else BindNew)
  }

  /** Why a transfer is refused. */
  function RebindRefusal(lib: Library, b: Bindings, t: Transfer, sig: string): Option<RebindError> {
    if !lib.validKey(t.newKey) then Some(InvalidKey)
    else if t.name !in b then Some(NotBound)
    else if b[t.name].key == t.newKey then Some(SameKey)
    else if !lib.verify(b[t.name].key, t, sig) then Some(NotAuthorised)
    else None
  }

  function Rebind(lib: Library, b: Bindings, t: Transfer, sig: string, now: int): (Bindings, Option<RebindError>) {
    var refusal := RebindRefusal(lib, b, t, sig);
    (if refusal.None? then b[t.name := Record(t.newKey, None, now)] else b, refusal)
  }

  /**
   * A transfer in two critical sections, with a pruning at `during` between them or none. The
   * second section writes to the record the first one found, in the table or no longer there.
   */
  function RebindDuring(lib: Library, b: Bindings, t: Transfer, sig: string, now: int, during: Option<int>)
    : (Bindings, Option<RebindError>)
  {
    var refusal := RebindRefusal(lib, b, t, sig);
    var mid := if refusal.None? && during.Some? then Prune(b, during.value) else b;
    if refusal.None? && t.name in mid then (mid[t.name := Record(t.newKey, None, now)], None) else (mid, refusal)
  }

  predicate Expired(r: Record, now: int) {
    now - r.lastSeen > BINDING_RETENTION
  }

  predicate WentQuiet(r: Record, now: int) {
    r.endpoint.Some? && now - r.lastSeen > STALE_AFTER
  }

  /** A quiet name loses its endpoint; only an expired one is dropped. */
  function Aged(r: Record, now: int): Record {
    if WentQuiet(r, now) then r.(endpoint := None) else r
  }

  function Prune(b: Bindings, now: int): Bindings {
    map n | n in b && !Expired(b[n], now) :: Aged(b[n], now)
  }

  // ---- what is kept on disk ----

  /** One line of the saved table: everything but the endpoint. */
  datatype Saved = Saved(name: string, key: string, lastSeen: int)

  /** The lines of a table, one for each name, in any order. */
  ghost predicate SavedFrom(b: Bindings, lines: seq<Saved>) {
    && (forall i :: 0 <= i < |lines| ==>
          lines[i].name in b && lines[i].key == b[lines[i].name].key && lines[i].lastSeen == b[lines[i].name].lastSeen)
    && (forall n :: n in b ==> exists i :: 0 <= i < |lines| && lines[i].name == n)
  }

  function Loaded(b: Bindings, lines: seq<Saved>): Bindings
    decreases |lines|
  {
    if lines == [] then b
    else
      var last := lines[|lines| - 1];
      Loaded(b, lines[..|lines| - 1])[last.name := Record(last.key, None, last.lastSeen)]
  }

  /** The bindings without their endpoints. */
  function Offline(b: Bindings): Bindings {
    map n | n in b :: b[n].(endpoint := None)
  }

  lemma {:induction false} LoadedFrom(b: Bindings, lines: seq<Saved>, n: string)
    ensures n in Loaded(b, lines) <==> n in b || exists i :: 0 <= i < |lines| && lines[i].name == n
    ensures n in Loaded(b, lines) && n !in b ==>
              exists i :: 0 <= i < |lines| && lines[i].name == n
                          && Loaded(b, lines)[n] == Record(lines[i].key, None, lines[i].lastSeen)
    decreases |lines|
  {
    if lines != [] {
      var k := |lines| - 1;
      var rest := lines[..k];
      LoadedFrom(b, rest, n);
      if i :| 0 <= i < |rest| && rest[i].name == n {
        assert lines[i].name == n;
      }
      if lines[k].name != n && n in Loaded(b, rest) && n !in b {
        var i :| 0 <= i < |rest| && rest[i].name == n && Loaded(b, rest)[n] == Record(rest[i].key, None, rest[i].lastSeen);
        assert lines[i] == rest[i];
      }
      if i :| 0 <= i < |lines| && lines[i].name == n && i < k {
        assert rest[i].name == n;
      }
    }
  }

  /** Saving and loading gives back every name with its key and its time, and no other name. */
  lemma SaveLoadExact(b: Bindings, lines: seq<Saved>)
    requires SavedFrom(b, lines)
    ensures Loaded(map[], lines) == Offline(b)
  {
    forall n
      ensures n in Loaded(map[], lines) <==> n in b
      ensures n in b ==> Loaded(map[], lines)[n] == b[n].(endpoint := None)
    {
      LoadedFrom(map[], lines, n);
    }
  }

  // ---- runs ----

  datatype Event =
    | Register(name: string, key: string, endpoint: string, now: int)
    | Hand(transfer: Transfer, sig: string, now: int)
    | Release(name: string)
    | Age(now: int)

  function Step(lib: Library, b: Bindings, e: Event): Bindings {
    match e
    case Register(name, key, endpoint, now) => Bind(b, name, key, endpoint, now).0
    case Hand(t, sig, now) => Rebind(lib, b, t, sig, now).0
    case Release(name) => b - {name}
    case Age(now) => Prune(b, now)
  }

  /** The table in memory, and what the file on disk would load to. */
  datatype State = State(memory: Bindings, disk: Bindings)

  /** An event of the running registry, a save of the table, or a restart that loads the file. */
  datatype Moment = Does(event: Event) | Flush | Restart

  function Pass(lib: Library, s: State, m: Moment): State {
    match m
    case Does(e) => State(Step(lib, s.memory, e), s.disk)
    case Flush => State(s.memory, Offline(s.memory))
    case Restart => State(s.disk, s.disk)
  }

  function Run(lib: Library, s: State, ms: seq<Moment>): State
    decreases |ms|
  {
    if ms == [] then s else Run(lib, Pass(lib, s, ms[0]), ms[1..])
  }

  /** The event hands the name on, signed by the key that held it. */
  predicate HandsOn(lib: Library, b: Bindings, e: Event, name: string) {
    && name in b && e.Hand? && e.transfer.name == name
    && e.transfer.newKey != b[name].key && lib.validKey(e.transfer.newKey)
    && lib.verify(b[name].key, e.transfer, e.sig)
  }

  /** The event lets the name go: a release, or more than the retention since the table says it was heard. */
  predicate LetsGo(b: Bindings, e: Event, name: string) {
    name in b && (e == Release(name) || (e.Age? && e.now - b[name].lastSeen > BINDING_RETENTION))
  }

  /** The event hears from the owner: a heartbeat under the owner's key, or a transfer. */
  predicate Hears(lib: Library, b: Bindings, e: Event, name: string) {
    || (e.Register? && e.name == name && (name in b ==> b[name].key == e.key))
    || HandsOn(lib, b, e, name)
  }

  /** Exactly what one event can do to one name. */
  lemma StepExact(lib: Library, b: Bindings, e: Event, name: string)
    requires name in b
    ensures var b' := Step(lib, b, e);
            && (name !in b' <==> LetsGo(b, e, name))
            && (name in b' ==>
                  && (b'[name].key != b[name].key <==> HandsOn(lib, b, e, name))
                  && (HandsOn(lib, b, e, name) ==> b'[name].key == e.transfer.newKey)
                  && b'[name].lastSeen == if Hears(lib, b, e, name) then e.now else b[name].lastSeen)
  {
  }

  /** The name is owned by this key in memory and on disk, and was heard of then and then. */
  predicate Owned(s: State, name: string, key: string, heard: Heard) {
    && name in s.memory && s.memory[name].key == key && s.memory[name].lastSeen == heard.memory
    && name in s.disk && s.disk[name].key == key && s.disk[name].lastSeen == heard.disk
  }

  /** When the owner was last heard of, as memory has it and as the file has it. */
  datatype Heard = Heard(memory: int, disk: int)

  /** The same, from what the moments say: a save brings the file up to date, a restart sets memory back. */
  function HeardAfter(lib: Library, s: State, m: Moment, name: string, h: Heard): Heard {
    match m
    case Does(e) => if Hears(lib, s.memory, e, name) then h.(memory := e.now) else h
    case Flush => Heard(h.memory, h.memory)
    case Restart => Heard(h.disk, h.disk)
  }

  function LastHeard(lib: Library, s: State, ms: seq<Moment>, name: string, h: Heard): Heard
    decreases |ms|
  {
    if ms == [] then h else LastHeard(lib, Pass(lib, s, ms[0]), ms[1..], name, HeardAfter(lib, s, ms[0], name, h))
  }

  /** The moment at which an owner can change. */
  predicate Disturbs(lib: Library, s: State, m: Moment, name: string) {
    m.Does? && (HandsOn(lib, s.memory, m.event, name) || LetsGo(s.memory, m.event, name))
  }

  /** Nothing in the run hands the name on or lets it go. */
  predicate Undisturbed(lib: Library, s: State, ms: seq<Moment>, name: string)
    decreases |ms|
  {
    ms == [] || (!Disturbs(lib, s, ms[0], name) && Undisturbed(lib, Pass(lib, s, ms[0]), ms[1..], name))
  }

  lemma PassKeepsOwner(lib: Library, s: State, m: Moment, name: string, key: string, h: Heard)
    requires Owned(s, name, key, h) && !Disturbs(lib, s, m, name)
    ensures Owned(Pass(lib, s, m), name, key, HeardAfter(lib, s, m, name, h))
  {
    if m.Does? {
      StepExact(lib, s.memory, m.event, name);
    }
  }

  /**
   * Ownership is not liveness. Over any run, with any silences, prunings, saves and restarts
   * that load whatever the file then holds, and with any number of others trying to register
   * the name, an owner whose name has been saved and is neither handed on under its own
   * signature nor let go keeps the name under the same key. When it was last heard of is what
   * memory has; a restart sets that back to the last time before the last save.
   */
  lemma {:induction false} OwnerKeepsName(lib: Library, s: State, ms: seq<Moment>, name: string, key: string, h: Heard)
    requires Owned(s, name, key, h) && Undisturbed(lib, s, ms, name)
    ensures Owned(Run(lib, s, ms), name, key, LastHeard(lib, s, ms, name, h))
    decreases |ms|
  {
    if ms != [] {
      PassKeepsOwner(lib, s, ms[0], name, key, h);
      OwnerKeepsName(lib, Pass(lib, s, ms[0]), ms[1..], name, key, HeardAfter(lib, s, ms[0], name, h));
    }
  }

  /** The moment the owner changed: until then memory and file agree on the key. */
  ghost predicate ChangedAt(lib: Library, s: State, ms: seq<Moment>, name: string, key: string, h: Heard, i: nat)
    requires i < |ms|
  {
    var was := Run(lib, s, ms[..i]);
    Owned(was, name, key, LastHeard(lib, s, ms[..i], name, h)) && Disturbs(lib, was, ms[i], name)
  }

  /**
   * Every change of owner has a cause: if at the end of a run a saved name is gone from memory
   * or has another key, then at some moment, with the key unchanged until then in memory and on
   * disk, it was handed on under a signature of that very key, or released, or pruned more than
   * the retention after it was last heard of.
   */
  lemma {:induction false} ChangeHasCause(lib: Library, s: State, ms: seq<Moment>, name: string, key: string, h: Heard)
      returns (i: nat)
    requires Owned(s, name, key, h)
    requires name !in Run(lib, s, ms).memory || Run(lib, s, ms).memory[name].key != key
    ensures i < |ms| && ChangedAt(lib, s, ms, name, key, h, i)
    decreases |ms|
  {
    if Disturbs(lib, s, ms[0], name) {
      i := 0;
      assert ms[..0] == [];
    } else {
      PassKeepsOwner(lib, s, ms[0], name, key, h);
      var k := ChangeHasCause(lib, Pass(lib, s, ms[0]), ms[1..], name, key, HeardAfter(lib, s, ms[0], name, h));
      i := k + 1;
      assert ms[..i][0] == ms[0] && ms[..i][1..] == ms[1..][..k];
    }
  }

  /**
   * What a save is for: a transfer that is saved survives a restart, and one that is not is
   * undone by it, down to the time the old owner was last heard of.
   */
  lemma TransferNeedsSave(lib: Library, s: State, t: Transfer, sig: string, now: int, h: Heard)
    requires t.name in s.memory && Owned(s, t.name, s.memory[t.name].key, h)
    requires HandsOn(lib, s.memory, Hand(t, sig, now), t.name)
    ensures Owned(Run(lib, s, [Does(Hand(t, sig, now)), Flush, Restart]), t.name, t.newKey, Heard(now, now))
    ensures Owned(Run(lib, s, [Does(Hand(t, sig, now)), Restart]), t.name, s.memory[t.name].key, Heard(h.disk, h.disk))
  {
    var hand := Does(Hand(t, sig, now));
    var s1 := Pass(lib, s, hand);
    assert [hand, Flush, Restart][1..] == [Flush, Restart] && [hand, Restart][1..] == [Restart];
    assert [Flush, Restart][1..] == [Restart] && [Restart][1..] == [];
    assert Run(lib, s1, [Restart]) == Run(lib, Pass(lib, s1, Restart), []) == Pass(lib, s1, Restart);
    var s2 := Pass(lib, s1, Flush);
    assert Run(lib, s2, [Restart]) == Run(lib, Pass(lib, s2, Restart), []) == Pass(lib, s2, Restart);
    assert Run(lib, s1, [Flush, Restart]) == Run(lib, s2, [Restart]);
  }

  /**
   * A transfer with a pruning inside it is the pruning and then the transfer, with one
   * exception, stated exactly: if that very pruning drops the name, the transfer is reported
   * as done and the name is gone.
   */
  lemma RebindDuringExact(lib: Library, b: Bindings, t: Transfer, sig: string, now: int, during: int)
    ensures RebindDuring(lib, b, t, sig, now, None) == Rebind(lib, b, t, sig, now)
    ensures var (b', r) := RebindDuring(lib, b, t, sig, now, Some(during));
            && r == Rebind(lib, b, t, sig, now).1
            && (r.Some? ==> b' == b)
            && (r.None? ==> t.name in b)
            && (r.None? && !Expired(b[t.name], during) ==>
                  b' == Step(lib, Step(lib, b, Age(during)), Hand(t, sig, now)))
            && (r.None? && Expired(b[t.name], during) ==> b' == Step(lib, b, Age(during)) && t.name !in b')
  {
  }

  // ---- one visit of a pruning ----

  /** The table when the names not in `left` have been visited. */
  function Visited(b: Bindings, left: set<string>, now: int): Bindings {
    map n | n in b && (n in left || !Expired(b[n], now)) :: if n in left then b[n] else Aged(b[n], now)
  }

  /** The visited names that have gone quiet, and those that have expired. */
  function Quiet(b: Bindings, left: set<string>, now: int): set<string> {
    set n | n in b && n !in left && WentQuiet(b[n], now)
  }

  function Gone(b: Bindings, left: set<string>, now: int): set<string> {
    set n | n in b && n !in left && Expired(b[n], now)
  }

  lemma VisitNext(b: Bindings, left: set<string>, n: string, now: int)
    requires n in b && n in left
    ensures n in Visited(b, left, now) && Visited(b, left, now)[n] == b[n]
    ensures Visited(b, left - {n}, now) ==
            if Expired(b[n], now) then Visited(b, left, now) - {n} else Visited(b, left, now)[n := Aged(b[n], now)]
  {
  }

  lemma QuietNext(b: Bindings, left: set<string>, n: string, now: int)
    requires n in b && n in left
    ensures |Quiet(b, left - {n}, now)| == |Quiet(b, left, now)| + if WentQuiet(b[n], now) then 1 else 0
  {
    var q, q' := Quiet(b, left, now), Quiet(b, left - {n}, now);
    assert n !in q;
    if WentQuiet(b[n], now) {
      assert q' == q + {n};
    } else {
      assert q' == q;
    }
  }

  lemma GoneNext(b: Bindings, left: set<string>, n: string, now: int)
    requires n in b && n in left
    ensures |Gone(b, left - {n}, now)| == |Gone(b, left, now)| + if Expired(b[n], now) then 1 else 0
  {
    var g, g' := Gone(b, left, now), Gone(b, left - {n}, now);
    assert n !in g;
    if Expired(b[n], now) {
      assert g' == g + {n};
    } else {
      assert g' == g;
    }
  }

  lemma VisitAll(b: Bindings, now: int)
    ensures Visited(b, {}, now) == Prune(b, now) && Visited(b, b.Keys, now) == b
    ensures |Quiet(b, b.Keys, now)| == 0 == |Gone(b, b.Keys, now)|
    ensures |Gone(b, {}, now)| == |b| - |Prune(b, now)|
  {
    assert Quiet(b, b.Keys, now) == {} && Gone(b, b.Keys, now) == {};
    var kept := Prune(b, now).Keys;
    assert b.Keys == kept + Gone(b, {}, now) && kept !! Gone(b, {}, now);
    assert |b.Keys| == |kept| + |Gone(b, {}, now)|;
    assert |b.Keys| == |b| && |kept| == |Prune(b, now)|;
  }

  // ---- the registry ----

  class Registry {
    var names: map<string, Record>

    constructor ()
      ensures names == map[]
    {
      names := map[];
    }

    /** The first key to claim a name owns it. */
    method BindName(name: string, key: string, endpoint: string, now: int) returns (r: BindResult)
      modifies this
      ensures (names, r) == Bind(old(names), name, key, endpoint, now)
    {
      var bound := name in names;
      if bound && names[name].key != key {
        return BindRejected;
      }
      if !bound {
        names := names[name := Record(key, None, now)];
      }
      names := names[name := names[name].(endpoint := Some(endpoint), lastSeen := now)];
      assert names == old(names)[name := Record(key, Some(endpoint), now)];
      return if bound then BindRefreshed else BindNew;
    }

    /** The first critical section of a transfer, and the check of the signature. */
    method CheckRebind(lib: Library, name: string, newKey: string, sig: string, ts: int, nonce: string)
        returns (r: Option<RebindError>)
      ensures r == RebindRefusal(lib, names, Transfer(name, newKey, ts, nonce), sig)
    {
      if !lib.validKey(newKey) {
        return Some(InvalidKey);
      }
      if name !in names {
        return Some(NotBound);
      }
      var current := names[name].key;
      if current == newKey {
        return Some(SameKey);
      }
      if !lib.verify(current, Transfer(name, newKey, ts, nonce), sig) {
        return Some(NotAuthorised);
      }
      return None;
    }

    /**
     * Transfers a name; the current key must have signed the new one. The lock is let go of
     * while the signature is checked, and a pruning may come in between.
     */
    method RebindName(lib: Library, name: string, newKey: string, sig: string, ts: int, nonce: string, now: int,
                      during: Option<int>)
        returns (r: Option<RebindError>)
      modifies this
      ensures (names, r) == RebindDuring(lib, old(names), Transfer(name, newKey, ts, nonce), sig, now, during)
    {
      r := CheckRebind(lib, name, newKey, sig, ts, nonce);
      if r.Some? {
        return;
      }
      if during.Some? {
        var offline, retired := PruneNames(during.value);
      }
      if name in names {
        names := names[name := Record(newKey, None, now)];
      }
    }

    method ReleaseName(name: string) returns (existed: bool)
      modifies this
      ensures names == old(names) - {name} && existed == (name in old(names))
    {
      existed := name in names;
      names := names - {name};
    }

    /** Visits the names in any order; a name may be forgotten and dropped in the same visit. */
    method PruneNames(now: int) returns (wentOffline: nat, retired: nat)
      modifies this
      ensures names == Prune(old(names), now)
      ensures wentOffline == |Quiet(old(names), {}, now)| && retired == |old(names)| - |names|
    {
      ghost var was := names;
      wentOffline, retired := 0, 0;
      var left := names.Keys;
      VisitAll(was, now);
      while left != {}
        invariant left <= was.Keys && names == Visited(was, left, now)
        invariant wentOffline == |Quiet(was, left, now)| && retired == |Gone(was, left, now)|
        decreases |left|
      {
        var n :| n in left;
        VisitNext(was, left, n, now);
        QuietNext(was, left, n, now);
        GoneNext(was, left, n, now);
        ghost var before := names;
        var rec := names[n];
        if rec.endpoint.Some? && now - rec.lastSeen > STALE_AFTER {
          names := names[n := rec.(endpoint := None)];
          wentOffline := wentOffline + 1;
        }
        if now - rec.lastSeen > BINDING_RETENTION {
          names := names - {n};
          retired := retired + 1;
        }
        assert names == if Expired(rec, now) then before - {n} else before[n := Aged(rec, now)];
        left := left - {n};
      }
    }

    /** The saved lines, in any order. */
    method Save() returns (lines: seq<Saved>)
      ensures SavedFrom(names, lines)
    {
      lines := [];
      var left := names.Keys;
      while left != {}
        invariant left <= names.Keys
        invariant forall i :: 0 <= i < |lines| ==>
          lines[i].name in names && lines[i].key == names[lines[i].name].key && lines[i].lastSeen == names[lines[i].name].lastSeen
        invariant forall n :: n in names && n !in left ==> exists i :: 0 <= i < |lines| && lines[i].name == n
        decreases |left|
      {
        var n :| n in left;
        ghost var before := lines;
        lines := lines + [Saved(n, names[n].key, names[n].lastSeen)];
        assert lines[|before|].name == n;
        forall m | m in names && m !in left
          ensures exists i :: 0 <= i < |lines| && lines[i].name == m
        {
          var i :| 0 <= i < |before| && before[i].name == m;
          assert lines[i].name == m;
        }
        left := left - {n};
      }
    }

    method Load(lines: seq<Saved>)
      modifies this
      ensures names == Loaded(old(names), lines)
    {
      for i := 0 to |lines|
        invariant names == Loaded(old(names), lines[..i])
      {
        assert lines[..i + 1][..i] == lines[..i];
        names := names[lines[i].name := Record(lines[i].key, None, lines[i].lastSeen)];
      }
      assert lines[..|lines|] == lines;
    }
  }

}
