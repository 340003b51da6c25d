/** Resolving a name by following referrals from registry to registry. */
module Referrals {
  import opened Basics
  import opened Delegations
  import opened Zone

  const MAX_REFERRALS: nat := 8

  /** What a registry signs. */
  datatype Signed =
    | SignedReferral(target: string, zone: string, endpoint: string, key: string, ts: int, nonce: string)
    | SignedAnswer(target: string, key: string, endpoint: string, ts: int, nonce: string)
    | SignedPath(target: string, nsPath: string, ts: int, nonce: string)

  /** One reply; Silence is the timeout. */
  datatype Reply =
    | Silence
    | Failure(info: string)
    | Referral(zone: string, endpoint: string, key: string, ts: int, nonce: string, sig: string)
    | Answer(target: string, key: string, endpoint: string, ts: int, nonce: string, sig: string,
             nsPath: string, pathSig: string)
    | Unexpected

  /** The nonce of a question and the reply that came to it. */
  datatype Exchange = Exchange(asked: string, reply: Reply)

  /** Signatures, key syntax and address lookup are given by libraries. */
  datatype Library = Library(verify: (string, Signed, string) -> bool,
                             validKey: string -> bool,
                             address: string -> Option<string>)

  /** Who is believed at the moment, about which zone. The configured registry has no zone. */
  datatype Trust = Trust(addr: string, key: string, zone: string)

  datatype Resolution = Resolution(peerKey: string, peerAddr: string, registry: string, nsPath: string)

  datatype ResolveError =
    | Timeout | Told(info: string) | WrongNonce | BadSignature | ForeignZone | Widening | InvalidKey
    | BadEndpoint | BadPathSignature | UnexpectedReply | TooManyReferrals

  // ---- what makes a reply acceptable ----

  predicate LinkHolds(lib: Library, target: string, at: Trust, x: Exchange) {
    var m := x.reply;
    && m.Referral? && m.nonce == x.asked
    && (at.key != "" ==> lib.verify(at.key, SignedReferral(target, m.zone, m.endpoint, m.key, m.ts, m.nonce), m.sig))
    && Contains(m.zone, target)
    && (at.zone != "" ==> IsNarrower(m.zone, at.zone))
    && lib.validKey(m.key) && lib.address(m.endpoint).Some?
  }

  predicate AnswerHolds(lib: Library, at: Trust, x: Exchange) {
    var m := x.reply;
    && m.Answer?
    && (at.key != "" ==>
          m.nonce == x.asked && lib.verify(at.key, SignedAnswer(m.target, m.key, m.endpoint, m.ts, m.nonce), m.sig))
    && lib.address(m.endpoint).Some?
    && (at.key != "" && m.nsPath != "" ==>
          lib.verify(at.key, SignedPath(m.target, m.nsPath, m.ts, m.nonce), m.pathSig))
  }

  function Learned(lib: Library, at: Trust, x: Exchange): Resolution
    requires AnswerHolds(lib, at, x)
  {
    Resolution(x.reply.key, lib.address(x.reply.endpoint).value, at.addr, if at.key != "" then x.reply.nsPath else "")
  }

  /** Who is believed after i referrals: the endpoint, the key and the zone of the last one. */
  function TrustAt(lib: Library, start: Trust, xs: seq<Exchange>, i: nat): Trust
    requires i <= |xs|
  {
    if i == 0 || !xs[i - 1].reply.Referral? || lib.address(xs[i - 1].reply.endpoint).None? then start
    else
      var m := xs[i - 1].reply;
      Trust(lib.address(m.endpoint).value, m.key, m.zone)
  }

  predicate LinkAt(lib: Library, target: string, start: Trust, xs: seq<Exchange>, i: nat)
    requires i < |xs|
  {
    LinkHolds(lib, target, TrustAt(lib, start, xs, i), xs[i])
  }

  /** The first n replies are referrals, each acceptable to whoever was believed before it. */
  predicate ChainHolds(lib: Library, target: string, start: Trust, xs: seq<Exchange>, n: nat) {
    n <= |xs| && forall i {:trigger LinkAt(lib, target, start, xs, i)} ::
      0 <= i < n ==> LinkAt(lib, target, start, xs, i)
  }

  predicate Resolved(lib: Library, target: string, start: Trust, xs: seq<Exchange>, n: nat) {
    n < |xs| && ChainHolds(lib, target, start, xs, n) && AnswerHolds(lib, TrustAt(lib, start, xs, n), xs[n])
  }

  method CheckReferral(lib: Library, target: string, at: Trust, x: Exchange) returns (r: Result<Trust, ResolveError>)
    requires x.reply.Referral?
    ensures r.Ok? <==> LinkHolds(lib, target, at, x)
    ensures r.Ok? ==> r.value == Trust(lib.address(x.reply.endpoint).value, x.reply.key, x.reply.zone)
  {
    var m := x.reply;
    if m.nonce != x.asked {
      return Err(WrongNonce);
    }
    if at.key != "" && !lib.verify(at.key, SignedReferral(target, m.zone, m.endpoint, m.key, m.ts, m.nonce), m.sig) {
      return Err(BadSignature);
    }
    if !Contains(m.zone, target) {
      return Err(ForeignZone);
    }
    if at.zone != "" && !IsNarrower(m.zone, at.zone) {
      return Err(Widening);
    }
    if !lib.validKey(m.key) {
      return Err(ResolveError.InvalidKey);
    }
    var next := lib.address(m.endpoint);
    if next.None? {
      return Err(BadEndpoint);
    }
    return Ok(Trust(next.value, m.key, m.zone));
  }

  method CheckAnswer(lib: Library, at: Trust, x: Exchange) returns (r: Result<Resolution, ResolveError>)
    requires x.reply.Answer?
    ensures r.Ok? <==> AnswerHolds(lib, at, x)
    ensures r.Ok? ==> r.value == Learned(lib, at, x)
  {
    var m := x.reply;
    if at.key != "" {
      if m.nonce != x.asked {
        return Err(WrongNonce);
      }
      if !lib.verify(at.key, SignedAnswer(m.target, m.key, m.endpoint, m.ts, m.nonce), m.sig) {
        return Err(BadSignature);
      }
    }
    var addr := lib.address(m.endpoint);
    if addr.None? {
      return Err(BadEndpoint);
    }
    var nsPath := "";
    if m.nsPath != "" && at.key != "" {
      if !lib.verify(at.key, SignedPath(m.target, m.nsPath, m.ts, m.nonce), m.pathSig) {
        return Err(BadPathSignature);
      }
      nsPath := m.nsPath;
    }
    return Ok(Resolution(m.key, addr.value, at.addr, nsPath));
  }

  /** What the reply at `hop` means for all chains: it goes on, it answers, or it ends every one. */
  lemma ReplyDecides(lib: Library, target: string, start: Trust, xs: seq<Exchange>, hop: nat)
    requires hop < |xs| && ChainHolds(lib, target, start, xs, hop)
    ensures var at := TrustAt(lib, start, xs, hop);
            && (LinkHolds(lib, target, at, xs[hop]) ==>
                  ChainHolds(lib, target, start, xs, hop + 1) && !Resolved(lib, target, start, xs, hop)
                  && TrustAt(lib, start, xs, hop + 1)
                     == Trust(lib.address(xs[hop].reply.endpoint).value, xs[hop].reply.key, xs[hop].reply.zone))
            && (!LinkHolds(lib, target, at, xs[hop]) ==> forall n :: n > hop ==> !Resolved(lib, target, start, xs, n))
            && (Resolved(lib, target, start, xs, hop) <==> AnswerHolds(lib, at, xs[hop]))
  {
    assert LinkAt(lib, target, start, xs, hop) <==> LinkHolds(lib, target, TrustAt(lib, start, xs, hop), xs[hop]);
  }

  /** The trust before the reply at `hop`, and no answer so far. */
  predicate Following(lib: Library, target: string, start: Trust, xs: seq<Exchange>, hop: nat, cur: Trust) {
    && hop <= |xs| && ChainHolds(lib, target, start, xs, hop) && cur == TrustAt(lib, start, xs, hop)
    && forall n :: 0 <= n < hop ==> !Resolved(lib, target, start, xs, n)
  }

  /**
   * The referral loop. It succeeds exactly when the replies are some referrals, fewer than
   * eight, each acceptable to the registry believed before it, and then an acceptable answer.
   */
  method Resolve(lib: Library, target: string, regAddr: string, registryKey: string, xs: seq<Exchange>)
      returns (r: Result<Resolution, ResolveError>, followed: nat)
    ensures followed <= MAX_REFERRALS && ChainHolds(lib, target, Trust(regAddr, registryKey, ""), xs, followed)
    ensures r.Ok? ==>
              var start := Trust(regAddr, registryKey, "");
              && followed < MAX_REFERRALS && Resolved(lib, target, start, xs, followed)
              && r.value == Learned(lib, TrustAt(lib, start, xs, followed), xs[followed])
    ensures r.Err? ==> forall n :: 0 <= n < MAX_REFERRALS ==> !Resolved(lib, target, Trust(regAddr, registryKey, ""), xs, n)
  {
    var cur := Trust(regAddr, registryKey, "");
    ghost var start := cur;
    followed := 0;
    for hop := 0 to MAX_REFERRALS
      invariant followed == hop && Following(lib, target, start, xs, hop, cur)
    {
      if hop >= |xs| {
        return Err(Timeout), hop;
      }
      var x := xs[hop];
      ReplyDecides(lib, target, start, xs, hop);
      match x.reply {
        case Silence =>
          return Err(Timeout), hop;
        case Failure(info) =>
          return Err(Told(info)), hop;
        case Unexpected =>
          return Err(UnexpectedReply), hop;
        case Answer(_, _, _, _, _, _, _, _) =>
          r := CheckAnswer(lib, cur, x);
          return r, hop;
        case Referral(_, _, _, _, _, _) =>
          var next := CheckReferral(lib, target, cur, x);
          if next.Err? {
            return Err(next.error), hop;
          }
          cur := next.value;
          followed := hop + 1;
      }
    }
    return Err(TooManyReferrals), followed;
  }

  // ---- what an accepted chain is ----

  /** The key the link before this one installed; at first the configured one. */
  function KeyBefore(start: Trust, xs: seq<Exchange>, i: nat): string
    requires i < |xs|
  {
    if i > 0 && xs[i - 1].reply.Referral? then xs[i - 1].reply.key else start.key
  }

  predicate LinkFacts(lib: Library, target: string, start: Trust, xs: seq<Exchange>, i: nat)
    requires i < |xs|
  {
    var m := xs[i].reply;
    && m.Referral? && m.nonce == xs[i].asked && Contains(m.zone, target)
    && (KeyBefore(start, xs, i) != "" ==>
          lib.verify(KeyBefore(start, xs, i),
                     SignedReferral(target, m.zone, m.endpoint, m.key, m.ts, m.nonce), m.sig))
    && (i > 0 ==> xs[i - 1].reply.Referral? && IsNarrower(m.zone, xs[i - 1].reply.zone))
  }

  lemma LinkInChain(lib: Library, target: string, start: Trust, xs: seq<Exchange>, n: nat, i: nat)
    requires ChainHolds(lib, target, start, xs, n) && i < n
    ensures LinkFacts(lib, target, start, xs, i)
  {
    assert LinkAt(lib, target, start, xs, i);
    if i > 0 {
      assert LinkAt(lib, target, start, xs, i - 1);
      ContainedIsDeeper(xs[i - 1].reply.zone, target);
      assert xs[i - 1].reply.zone != "";
    }
  }

  function ZoneAt(xs: seq<Exchange>, i: nat): string
    requires i < |xs|
  {
    if xs[i].reply.Referral? then xs[i].reply.zone else ""
  }

  lemma LinkZones(lib: Library, target: string, start: Trust, xs: seq<Exchange>, n: nat, i: nat)
    requires ChainHolds(lib, target, start, xs, n) && i < n
    ensures 0 < Depth(ZoneAt(xs, i)) <= Depth(target)
    ensures i > 0 ==> Depth(ZoneAt(xs, i - 1)) < Depth(ZoneAt(xs, i))
  {
    LinkInChain(lib, target, start, xs, n, i);
    ContainedIsDeeper(xs[i].reply.zone, target);
    if i > 0 {
      NarrowerIsDeeper(xs[i].reply.zone, xs[i - 1].reply.zone);
    }
  }

  lemma {:induction false} ChainDeepens(lib: Library, target: string, start: Trust, xs: seq<Exchange>, n: nat, i: nat)
    requires ChainHolds(lib, target, start, xs, n) && i < n
    ensures i < Depth(ZoneAt(xs, i)) <= Depth(target)
    decreases i
  {
    LinkZones(lib, target, start, xs, n, i);
    if i > 0 {
      ChainDeepens(lib, target, start, xs, n, i - 1);
    }
  }

  /**
   * In every chain that is followed, each zone contains the target and lies strictly beneath
   * the zone before it, each link is signed by the key the link before it installed, and the
   * chain is no longer than the target is deep.
   */
  lemma ChainNarrows(lib: Library, target: string, start: Trust, xs: seq<Exchange>, n: nat)
    requires ChainHolds(lib, target, start, xs, n)
    ensures forall i :: 0 <= i < n ==> LinkFacts(lib, target, start, xs, i)
    ensures n > 0 ==> n <= Depth(ZoneAt(xs, n - 1)) <= Depth(target)
  {
    forall i | 0 <= i < n
      ensures LinkFacts(lib, target, start, xs, i)
    {
      LinkInChain(lib, target, start, xs, n, i);
    }
    if n > 0 {
      ChainDeepens(lib, target, start, xs, n, n - 1);
    }
  }

  /** With a configured key no step is taken on trust, up to and including the answer. */
  lemma EveryStepIsSigned(lib: Library, target: string, start: Trust, xs: seq<Exchange>, n: nat)
    requires Resolved(lib, target, start, xs, n) && start.key != "" && !lib.validKey("")
    ensures forall i :: 0 <= i <= n ==> KeyBefore(start, xs, i) != ""
    ensures var m, key := xs[n].reply, KeyBefore(start, xs, n);
            && m.nonce == xs[n].asked
            && lib.verify(key, SignedAnswer(m.target, m.key, m.endpoint, m.ts, m.nonce), m.sig)
            && (m.nsPath != "" ==> lib.verify(key, SignedPath(m.target, m.nsPath, m.ts, m.nonce), m.pathSig))
    ensures n < MAX_REFERRALS ==> n <= Min(MAX_REFERRALS, Depth(target))
  {
    forall i | 0 <= i <= n
      ensures KeyBefore(start, xs, i) != "" && KeyBefore(start, xs, i) == TrustAt(lib, start, xs, i).key
    {
      if i > 0 {
        assert LinkAt(lib, target, start, xs, i - 1);
      }
    }
    ChainNarrows(lib, target, start, xs, n);
  }

  /** What a registry answers for a target in a branch it has delegated. */
  function ReferralTo(d: Delegation, ts: int, nonce: string, sig: string): Reply {
    Referral(d.zone, d.endpoint, d.key, ts, nonce, sig)
  }

  /**
   * The two sides agree: whatever delegation a registry may load for its own zone, the
   * referral it sends for a name in that branch is followed by a resolver that believes it.
   */
  lemma OwnReferralsAreFollowed(lib: Library, target: string, at: Trust, own: string, d: Delegation,
                                ts: int, nonce: string, sig: string)
    requires Acceptable(d, own, lib.validKey) && Contains(d.zone, target)
    requires at.zone == "" || Normalise(at.zone) == Normalise(own)
    requires lib.address(d.endpoint).Some?
    requires lib.verify(at.key, SignedReferral(target, d.zone, d.endpoint, d.key, ts, nonce), sig)
    ensures LinkHolds(lib, target, at, Exchange(nonce, ReferralTo(d, ts, nonce, sig)))
    ensures Depth(d.zone) > Depth(own)
  {
    NarrowerIsDeeper(d.zone, own);
  }

  // ---- whose answer it is ----

  /** The answer that is accepted speaks of the name that was asked for. */
  predicate AnswersTheQuestion(target: string, x: Exchange) {
    x.reply.Answer? && x.reply.target == target
  }

  /**
   * Nothing in the loop makes it so: for every two names there are a registry's key and a signed
   * answer about the second that the resolution of the first accepts and returns.
   */
  lemma AnswerForAnotherName(target: string, other: string, addr: string, key: string, peer: string)
      returns (lib: Library, x: Exchange)
    requires target != other && key != ""
    ensures Resolved(lib, target, Trust(addr, key, ""), [x], 0) && !AnswersTheQuestion(target, x)
    ensures x.reply.target == other && Learned(lib, Trust(addr, key, ""), x).peerKey == peer
    ensures forall k, signed, sig :: lib.verify(k, signed, sig) ==>
              k == key && signed == SignedAnswer(other, peer, "", 0, "")
  {
    lib := Library((k, signed, sig) => k == key && signed == SignedAnswer(other, peer, "", 0, ""), k => k != "", a => Some(a));
    x := Exchange("", Answer(other, peer, "", 0, "", "", "", ""));
    assert TrustAt(lib, Trust(addr, key, ""), [x], 0) == Trust(addr, key, "");
  }
}
