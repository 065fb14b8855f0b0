// Round-trip estimation: tcp_xmit_timer and the back-off of the retransmission timer.

module TcpRtt {

  const REXMT_MAX := 128         // TCPTV_REXMTMAX, in ticks
  const MAX_RXTSHIFT := 12
  const BACKOFF := [1, 2, 4, 8, 16, 32, 64, 64, 64, 64, 64, 64, 64]

  // srtt is scaled by 8 and rttvar by 4; srtt == 0: no measurement yet.
  datatype Rtt = Rtt(srtt: nat, rttvar: nat)

  function Abs(n: int): nat { if n < 0 then -n else n }

  // A new sample.
  function Measure(r: Rtt, rtt: nat): Rtt {
    if r.srtt != 0 then
      var delta := rtt - 1 - r.srtt / 8;
      var srtt := r.srtt + delta;
      var rttvar := r.rttvar + (Abs(delta) - r.rttvar / 4);
      Rtt(if srtt <= 0 then 1 else srtt, if rttvar <= 0 then 1 else rttvar)
    else Rtt(rtt * 8, rtt * 2)
  }

  // What a retransmission does once the timer has backed off far enough.
  function Clobber(r: Rtt): Rtt { Rtt(0, r.rttvar + r.srtt / 8) }

  // TCP_REXMTVAL
  function RexmtVal(r: Rtt): nat { r.srtt / 8 + r.rttvar }

  // TCPT_RANGESET
  function RangeSet(value: int, lo: nat, hi: nat): (t: nat)
    requires lo <= hi
    ensures lo <= t <= hi && (value < lo ==> t == lo) && (value > hi ==> t == hi) && (lo <= value <= hi ==> t == value)
  {
    if value < lo then lo else if value > hi then hi else value
  }

  ghost predicate Bounded(r: Rtt, m: nat) {
    r.srtt <= 8 * m && r.rttvar <= 5 * m && (r.srtt > 0 ==> r.rttvar <= 4 * m)
  }

  datatype Event = Sample(rtt: nat) | Timeout(far: bool)

  function Step(r: Rtt, e: Event): Rtt {
    match e
    case Sample(rtt) => Measure(r, rtt)
    case Timeout(far) => if far then Clobber(r) else r
  }

  function Run(r: Rtt, es: seq<Event>): Rtt
    decreases |es|
  {
    if es == [] then r else Run(Step(r, es[0]), es[1..])
  }

  // The first sample counts whatever the variance was before.
  lemma MeasureBounded(r: Rtt, rtt: nat, m: nat)
    requires (r.srtt == 0 || Bounded(r, m)) && 1 <= rtt <= m
    ensures Bounded(Measure(r, rtt), m) && Measure(r, rtt).srtt > 0
  {
    if r.srtt != 0 {
      var delta := rtt - 1 - r.srtt / 8;
      assert r.srtt / 8 <= m && r.srtt - r.srtt / 8 <= 7 * m;
      assert r.rttvar - r.rttvar / 4 <= 3 * m;
    }
  }

  predicate Sampled(es: seq<Event>)
    decreases |es|
  {
    es != [] && (es[0].Sample? || Sampled(es[1..]))
  }

  // With samples of 1 to m ticks the estimates are within 8 m and 5 m from the first sample on,
  // over any mix of samples and timeouts, and so do not overflow 16 bits for m up to 4095.
  lemma {:induction false} RunBounded(r: Rtt, es: seq<Event>, m: nat)
    requires r.srtt == 0 || Bounded(r, m)
    requires forall i :: 0 <= i < |es| && es[i].Sample? ==> 1 <= es[i].rtt <= m
    ensures var t := Run(r, es);
      && (t.srtt == 0 || Bounded(t, m)) && (Bounded(r, m) || Sampled(es) ==> Bounded(t, m))
      && (m <= 4095 && Bounded(t, m) ==> t.srtt <= 0x7fff && t.rttvar <= 0x7fff)
    decreases |es|
  {
    if es != [] {
      if es[0].Sample? { MeasureBounded(r, es[0].rtt, m); }
      RunBounded(Step(r, es[0]), es[1..], m);
    }
  }

  // The interval after a sample, as tcp_xmit_timer sets it, is the estimate but for the limits.
  lemma IntervalBounded(r: Rtt, rtt: nat, m: nat, rttMin: nat)
    requires (r.srtt == 0 || Bounded(r, m)) && 1 <= rtt <= m && rttMin <= REXMT_MAX
    ensures var t := RangeSet(RexmtVal(Measure(r, rtt)), rttMin, REXMT_MAX);
      rttMin <= t <= (if 5 * m < rttMin then rttMin else 5 * m)
  {
    MeasureBounded(r, rtt, m);
  }

  // The first sample is taken as it is, with half of it for the deviation: the interval is three times as long.
  lemma FirstSample(r: Rtt, rtt: nat)
    requires r.srtt == 0
    ensures Measure(r, rtt).srtt == 8 * rtt && RexmtVal(Measure(r, rtt)) == 3 * rtt
  {
  }

  // A sample moves the smoothed time an eighth of the way towards it: it never goes past the sample, and
  // stays where it is just when it is there already, to the tick.
  lemma TowardsSample(r: Rtt, rtt: nat)
    requires r.srtt > 0 && rtt >= 1
    ensures var s, m := Measure(r, rtt).srtt, 8 * (rtt - 1);
      && 7 * r.srtt + m <= 8 * s <= 7 * r.srtt + m + 7
      && (if r.srtt <= m then r.srtt <= s <= m else m <= s <= r.srtt) && (s == r.srtt <==> r.srtt / 8 == rtt - 1)
  {
  }

  // The deviation moves a quarter of the way towards what the sample has been off.
  lemma TowardsDeviation(r: Rtt, rtt: nat)
    requires r.srtt > 0 && rtt >= 1
    ensures var v, d := Measure(r, rtt).rttvar, Abs(rtt - 1 - r.srtt / 8);
      v == 1 || 3 * r.rttvar + 4 * d <= 4 * v <= 3 * r.rttvar + 4 * d + 3
  {
  }

  // The interval after so many timeouts in a row.
  function Interval(r: Rtt, shift: nat, min: nat): nat
    requires shift <= MAX_RXTSHIFT && min <= REXMT_MAX
  {
    RangeSet(RexmtVal(r) * BACKOFF[shift], min, REXMT_MAX)
  }

  // Giving up the estimate does not change what the interval is made from.
  lemma ClobberKeeps(r: Rtt)
    ensures RexmtVal(Clobber(r)) == RexmtVal(r)
  {
  }

  // From one timeout to the next the interval never falls; it doubles for the first six, within its limits.
  lemma BackoffGrows(r: Rtt, shift: nat, min: nat)
    requires shift < MAX_RXTSHIFT && min <= REXMT_MAX
    ensures Interval(r, shift, min) <= Interval(r, shift + 1, min) <= 2 * Interval(r, shift, min)
    ensures shift < 6 && min <= RexmtVal(r) * BACKOFF[shift] && 2 * Interval(r, shift, min) <= REXMT_MAX ==>
      Interval(r, shift + 1, min) == 2 * Interval(r, shift, min)
    ensures shift >= 6 ==> Interval(r, shift + 1, min) == Interval(r, shift, min)
  {
    var v, b, c := RexmtVal(r), BACKOFF[shift], BACKOFF[shift + 1];
    assert c == 2 * b || (c == b == 64);
    assert c == 2 * b ==> v * c == 2 * (v * b);
  }

  const PERS_MIN := 10              // TCPTV_PERSMIN and TCPTV_PERSMAX, in ticks
  const PERS_MAX := 120

  // The interval between probes.
  function PersistInterval(r: Rtt, shift: nat): (t: nat)
    requires shift <= MAX_RXTSHIFT
    ensures PERS_MIN <= t <= PERS_MAX
  {
    RangeSet((r.srtt / 4 + r.rttvar) / 2 * BACKOFF[shift], PERS_MIN, PERS_MAX)
  }

  lemma PersistGrows(r: Rtt, shift: nat)
    requires shift < MAX_RXTSHIFT
    ensures PersistInterval(r, shift) <= PersistInterval(r, shift + 1) <= 2 * PersistInterval(r, shift)
  {
    var v, b, c := (r.srtt / 4 + r.rttvar) / 2, BACKOFF[shift], BACKOFF[shift + 1];
    assert c == 2 * b || (c == b == 64);
    assert c == 2 * b ==> v * c == 2 * (v * b);
  }
}
