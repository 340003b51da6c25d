/** The round-trip estimator of the stream (RFC 6298, sections 2.2 and 2.3). Durations are nanoseconds. */
module RttEstimator {
  import opened Basics

  const MIN_RTO: int := 200_000_000
  const MAX_RTO: int := 10_000_000_000

  datatype Rtt = Rtt(srtt: int, rttvar: int, rto: int, haveRTT: bool)

  function Clamp(rto: int): int {
    if rto < MIN_RTO then MIN_RTO else if rto > MAX_RTO then MAX_RTO else rto
  }

  function Abs(d: int): int {
    if d < 0 then -d else d
  }

  // The clock is monotonic, so no sample is negative and Go's truncating
  // division agrees with Dafny's.
  function UpdateRTT(r: Rtt, sample: int): Rtt {
    if !r.haveRTT then
      Rtt(sample, sample / 2, Clamp(sample + 4 * (sample / 2)), true)
    else
      var rttvar := (3 * r.rttvar + Abs(r.srtt - sample)) / 4;
      var srtt := (7 * r.srtt + sample) / 8;
      Rtt(srtt, rttvar, Clamp(srtt + 4 * rttvar), true)
  }

  function Backoff(r: Rtt): Rtt {
    r.(rto := Min(2 * r.rto, MAX_RTO))
  }

  function InitRtt(): Rtt {
    Rtt(0, 0, MIN_RTO * 3, false)
  }

  /** What every run keeps: the timer stays in its range and the estimates are not negative. */
  predicate RttInv(r: Rtt) {
    && MIN_RTO <= r.rto <= MAX_RTO
    && 0 <= r.srtt
    && 0 <= r.rttvar
  }

  lemma UpdateKeepsInv(r: Rtt, sample: int)
    requires RttInv(r) && 0 <= sample
    ensures RttInv(UpdateRTT(r, sample))
  {
  }

  // ---- whole sample histories ----

  /** One input of the estimator: a measured sample, or the backoff after a loss. */
  datatype RttEvent = Sample(d: int) | Loss

  function Apply(r: Rtt, e: RttEvent): Rtt {
    match e
    case Sample(d) => UpdateRTT(r, d)
    case Loss => Backoff(r)
  }

  function Estimate(es: seq<RttEvent>): Rtt {
    if es == [] then InitRtt() else Apply(Estimate(es[..|es| - 1]), es[|es| - 1])
  }

  predicate SamplesWithin(es: seq<RttEvent>, lo: int, hi: int) {
    forall i :: 0 <= i < |es| && es[i].Sample? ==> lo <= es[i].d <= hi
  }

  /**
   * Whatever samples and losses arrive in whatever order, the smoothed estimate stays
   * between the least and the greatest sample despite rounding down, the deviation never
   * exceeds the greatest sample, and the timer stays within its limits.
   */
  lemma {:induction false} EstimateStaysInRange(es: seq<RttEvent>, lo: int, hi: int)
    requires 0 <= lo <= hi
    requires SamplesWithin(es, lo, hi)
    ensures var r := Estimate(es);
            && RttInv(r)
            && (r.haveRTT <==> exists i :: 0 <= i < |es| && es[i].Sample?)
            && (r.haveRTT ==> lo <= r.srtt <= hi && r.rttvar <= hi)
  {
    if es != [] {
      var prev := es[..|es| - 1];
      EstimateStaysInRange(prev, lo, hi);
      var r := Estimate(es);
      if r.haveRTT && es[|es| - 1].Loss? {
        var i :| 0 <= i < |prev| && prev[i].Sample?;
        assert es[i].Sample?;
      }
      if exists i :: 0 <= i < |es| && es[i].Sample? {
        var i :| 0 <= i < |es| && es[i].Sample?;
        if i < |prev| {
          assert prev[i].Sample?;
        }
      }
    }
  }
}
