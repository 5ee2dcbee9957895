/** The round-trip estimator of `ikcp_update_ack`. */
module Rtt {
  import opened SerialNumbers

  const RTO_DEF := 200
  const RTO_MAX := 60000

  /** `rx_srtt`, `rx_rttval` and `rx_rto`. */
  datatype Rtt = Rtt(srtt: int, rttval: int, rto: u32)

  /** C's `/`, which truncates toward zero. */
  function TruncDiv(x: int, d: int): int
    requires d > 0
  {
    if x >= 0 then x / d else -((-x) / d)
  }

  /** `_ibound_`. */
  function Bound(lower: u32, middle: u32, upper: u32): u32 { Min(Max(lower, middle), upper) }

  /** One sample, as `ikcp_update_ack` takes it. Overflow of the signed products is modelled
      as two's-complement wrap-around. */
  function Update(r: Rtt, minRto: u32, sample: int): (r': Rtt)
    ensures minRto <= RTO_MAX ==> minRto <= r'.rto <= RTO_MAX
  {
    var (srtt, rttval) :=
      if r.srtt == 0 then (sample, TruncDiv(sample, 2))
      else
        var delta := if sample - r.srtt < 0 then r.srtt - sample else sample - r.srtt;
        var v := I32(TruncDiv(I32(3 * r.rttval) + delta, 4));
        var s := TruncDiv(I32(7 * r.srtt + sample), 8);
        (if s < 1 then 1 else s, v);
    var rto := U32(srtt + Max(1, U32(4 * rttval)));
    Rtt(srtt, rttval, Bound(minRto, rto, RTO_MAX))
  }

  /** Any number of samples in order. */
  function UpdateAll(r: Rtt, minRto: u32, samples: seq<int>): Rtt {
    if samples == [] then r
    else Update(UpdateAll(r, minRto, samples[..|samples| - 1]), minRto, samples[|samples| - 1])
  }

  /** Both estimates lie between zero and the largest sample. */
  ghost predicate Within(r: Rtt, b: int) {
    0 <= r.srtt <= b && 0 <= r.rttval <= b
  }

  /** On samples up to `b`, with 8b below 2^31, no intermediate value leaves 32 bits, and
      the update is section 2 of RFC 6298 with alpha = 1/8, beta = 1/4, K = 4 and divisions
      rounded down. RFC 6298 uses the old SRTT in both formulas, as here. */
  lemma UpdateIsRfc6298(r: Rtt, minRto: u32, sample: int, b: int)
    requires 0 <= sample <= b && 8 * b < TWO31 && Within(r, b) && minRto <= RTO_MAX
    ensures Within(Update(r, minRto, sample), b)
    ensures var r' := Update(r, minRto, sample);
      if r.srtt == 0 then r'.srtt == sample && r'.rttval == sample / 2
      else
        var delta := if sample < r.srtt then r.srtt - sample else sample - r.srtt;
        && r'.rttval == (3 * r.rttval + delta) / 4
        && r'.srtt == Max(1, (7 * r.srtt + sample) / 8)
    ensures var r' := Update(r, minRto, sample);
      r'.rto == Min(Max(minRto, r'.srtt + Max(1, 4 * r'.rttval)), RTO_MAX)
  {
    if r.srtt != 0 {
      var delta := if sample - r.srtt < 0 then r.srtt - sample else sample - r.srtt;
      assert I32(3 * r.rttval) == 3 * r.rttval;
      assert I32(7 * r.srtt + sample) == 7 * r.srtt + sample;
      var v := (3 * r.rttval + delta) / 4;
      assert 0 <= v <= b;
      assert I32(v) == v;
    }
  }

  /** Over any run of samples in [0, b] from a fresh connection the estimates stay bounded
      and the timeout stays between the configured minimum and one minute. */
  lemma {:induction false} EstimatesBounded(r: Rtt, minRto: u32, samples: seq<int>, b: int)
    requires r == Rtt(0, 0, RTO_DEF) && minRto <= RTO_DEF
    requires 0 <= b && 8 * b < TWO31
    requires forall i :: 0 <= i < |samples| ==> 0 <= samples[i] <= b
    ensures Within(UpdateAll(r, minRto, samples), b)
    ensures minRto <= UpdateAll(r, minRto, samples).rto <= RTO_MAX
  {
    if samples != [] {
      var n := |samples| - 1;
      EstimatesBounded(r, minRto, samples[..n], b);
      UpdateIsRfc6298(UpdateAll(r, minRto, samples[..n]), minRto, samples[n], b);
    }
  }
}
