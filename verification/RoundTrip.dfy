/** The round-trip estimator, `updateAck` (network/kcp/kcp.go:370-392), in 32-bit arithmetic. */
module RoundTrip {
  import opened Serial

  const RTO_NDL: u32 := 30
  const RTO_MIN: u32 := 100
  const RTO_DEF: u32 := 200
  const RTO_MAX: u32 := 60000

  /** Samples up to about six days cannot overflow anything. */
  const SAMPLE_LIMIT: int := 0x2000_0000

  datatype Rtt = Rtt(srtt: i32, rttvar: i32, rto: u32)

  function Bound(lower: u32, middle: u32, upper: u32): u32 {
    Min(Max(lower, middle), upper)
  }

  /** `|rtt - srtt|`, negating in 32 bits. */
  function Deviation(srtt: i32, rtt: i32): i32 {
    var delta: int := Signed(rtt - srtt);
    if delta < 0 then Signed(-delta) else delta
  }

  function NextMean(srtt: i32, rtt: i32): i32 {
    if srtt == 0 then rtt else Signed(srtt + Signed(rtt - srtt) / 8)
  }

  /** `mean` is the mean already updated with `rtt`. */
  function NextVariation(r: Rtt, rtt: i32, mean: i32): i32 {
    if r.srtt == 0 then rtt / 2
    else if rtt < Signed(mean - r.rttvar)
    then Signed(r.rttvar + Signed(Deviation(r.srtt, rtt) - r.rttvar) / 32)
    else Signed(r.rttvar + Signed(Deviation(r.srtt, rtt) - r.rttvar) / 4)
  }

  function Timeout(srtt: i32, rttvar: i32, interval: u32): u32 {
    Wrap(Wrap(srtt) + Max(interval, Wrap(4 * Wrap(rttvar))))
  }

  /** The estimator as the source computes it: every int32 and uint32 operation wraps. */
  function UpdateAck(r: Rtt, rtt: i32, interval: u32, minrto: u32): Rtt {
    var srtt := NextMean(r.srtt, rtt);
    var rttvar := NextVariation(r, rtt, srtt);
    Rtt(srtt, rttvar, Bound(minrto, Timeout(srtt, rttvar, interval), RTO_MAX))
  }

  /** The same estimator over unbounded integers. */
  datatype Estimate = Estimate(srtt: int, rttvar: int, rto: int)

  function Smooth(r: Estimate, rtt: int, interval: int, minrto: int): Estimate {
    var delta := rtt - r.srtt;
    var srtt := if r.srtt == 0 then rtt else r.srtt + delta / 8;
    var size := if delta < 0 then -delta else delta;
    var rttvar :=
      if r.srtt == 0 then rtt / 2
      else r.rttvar + (size - r.rttvar) / (if rtt < srtt - r.rttvar then 32 else 4);
    Estimate(srtt, rttvar, Min(Max(minrto, srtt + Max(interval, 4 * rttvar)), RTO_MAX))
  }

  /** What holds of the estimator while every sample lies in `lo..hi`; `srtt == 0` means no sample yet. */
  ghost predicate Within(srtt: int, rttvar: int, lo: int, hi: int) {
    (srtt == 0 || lo <= srtt <= hi) && 0 <= rttvar <= hi
  }

  /** A smoothed value stays between the old value and the sample. */
  lemma StepBetween(a: int, b: int, k: int)
    requires k == 4 || k == 8 || k == 32
    ensures a <= b ==> a <= a + (b - a) / k <= b
    ensures b <= a ==> b <= a + (b - a) / k <= a
  {
  }

  /** One sample keeps the estimate inside the range of the samples. */
  lemma SmoothStays(r: Estimate, rtt: int, lo: int, hi: int, interval: int, minrto: int)
    requires 0 <= lo <= rtt <= hi && Within(r.srtt, r.rttvar, lo, hi)
    ensures var s := Smooth(r, rtt, interval, minrto);
            lo <= s.srtt <= hi && 0 <= s.rttvar <= hi
    ensures minrto <= RTO_MAX ==> minrto <= Smooth(r, rtt, interval, minrto).rto <= RTO_MAX
  {
  }

  lemma MeanExact(srtt: i32, rtt: i32)
    requires 0 <= srtt <= SAMPLE_LIMIT && 0 <= rtt <= SAMPLE_LIMIT
    ensures NextMean(srtt, rtt) == if srtt == 0 then rtt else srtt + (rtt - srtt) / 8
  {
  }

  lemma DeviationExact(srtt: i32, rtt: i32)
    requires 0 <= srtt <= SAMPLE_LIMIT && 0 <= rtt <= SAMPLE_LIMIT
    ensures Deviation(srtt, rtt) == Max(rtt - srtt, srtt - rtt)
  {
  }

  /** One smoothing step in 32 bits. */
  lemma StepExact(a: i32, b: int, k: int)
    requires 0 <= a <= SAMPLE_LIMIT && 0 <= b <= SAMPLE_LIMIT && (k == 4 || k == 8 || k == 32)
    ensures Signed(a + Signed(b - a) / k) == a + (b - a) / k
  {
    SignedId(b - a);
    StepBetween(a, b, k);
    SignedId(a + (b - a) / k);
  }

  lemma VariationExact(r: Rtt, rtt: i32, mean: i32)
    requires 0 <= r.srtt <= SAMPLE_LIMIT && 0 <= rtt <= SAMPLE_LIMIT
    requires 0 <= mean <= SAMPLE_LIMIT && 0 <= r.rttvar <= SAMPLE_LIMIT
    ensures NextVariation(r, rtt, mean) ==
      if r.srtt == 0 then rtt / 2
      else r.rttvar + (Max(rtt - r.srtt, r.srtt - rtt) - r.rttvar) / (if rtt < mean - r.rttvar then 32 else 4)
  {
    DeviationExact(r.srtt, rtt);
    var size := Max(rtt - r.srtt, r.srtt - rtt);
    SignedId(mean - r.rttvar);
    StepExact(r.rttvar, size, 32);
    StepExact(r.rttvar, size, 4);
  }

  lemma TimeoutExact(srtt: i32, rttvar: i32, interval: u32)
    requires 0 <= srtt <= SAMPLE_LIMIT && 0 <= rttvar <= SAMPLE_LIMIT && interval <= HALF
    ensures Timeout(srtt, rttvar, interval) == srtt + Max(interval, 4 * rttvar)
  {
  }

  /** Below the sample limit no 32-bit operation of the estimator overflows. */
  lemma NoOverflow(r: Rtt, rtt: i32, lo: int, hi: int, interval: u32, minrto: u32)
    requires 0 <= lo <= rtt <= hi <= SAMPLE_LIMIT && Within(r.srtt, r.rttvar, lo, hi)
    requires interval <= HALF
    ensures var s := UpdateAck(r, rtt, interval, minrto);
            Estimate(s.srtt, s.rttvar, s.rto) == Smooth(Estimate(r.srtt, r.rttvar, r.rto), rtt, interval, minrto)
  {
    var s := Smooth(Estimate(r.srtt, r.rttvar, r.rto), rtt, interval, minrto);
    SmoothStays(Estimate(r.srtt, r.rttvar, r.rto), rtt, lo, hi, interval, minrto);
    MeanExact(r.srtt, rtt);
    VariationExact(r, rtt, s.srtt);
    TimeoutExact(s.srtt, s.rttvar, interval);
  }

  /** The estimator after a history of samples. */
  function AfterSamples(r: Rtt, samples: seq<i32>, interval: u32, minrto: u32): Rtt
    decreases |samples|
  {
    if samples == [] then r
    else
      var k := |samples| - 1;
      UpdateAck(AfterSamples(r, samples[..k], interval, minrto), samples[k], interval, minrto)
  }

  /**
   Over any history of samples in `lo..hi` the smoothed time stays in that
   range, the variation below `hi`, and the timeout between 30 ms and 60 s.
   */
  lemma {:induction false} HistoryStays(r: Rtt, samples: seq<i32>, lo: int, hi: int, interval: u32, minrto: u32)
    requires 0 <= lo <= hi <= SAMPLE_LIMIT && interval <= HALF && RTO_NDL <= minrto <= RTO_MAX
    requires r == Rtt(0, 0, RTO_DEF)
    requires forall x :: x in samples ==> lo <= x <= hi
    ensures var s := AfterSamples(r, samples, interval, minrto);
      && Within(s.srtt, s.rttvar, lo, hi)
      && RTO_NDL <= s.rto <= RTO_MAX
      && (samples != [] ==> lo <= s.srtt <= hi)
    decreases |samples|
  {
    if samples != [] {
      var before, x := samples[..|samples| - 1], samples[|samples| - 1];
      assert forall y :: y in before ==> y in samples;
      HistoryStays(r, before, lo, hi, interval, minrto);
      var s := AfterSamples(r, before, interval, minrto);
      assert x in samples;
      NoOverflow(s, x, lo, hi, interval, minrto);
      SmoothStays(Estimate(s.srtt, s.rttvar, s.rto), x, lo, hi, interval, minrto);
    }
  }

  /** Whatever the samples, the timeout is between 30 ms and 60 s. */
  lemma RtoBounded(r: Rtt, rtt: i32, interval: u32, minrto: u32)
    requires RTO_NDL <= minrto <= RTO_MAX
    ensures RTO_NDL <= UpdateAck(r, rtt, interval, minrto).rto <= RTO_MAX
  {
  }
}
