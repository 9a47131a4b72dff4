/**
 The retransmission timer. Floats are reals: rounding is not modelled.
 */
module Rtt {
  const RTT_RXTMIN := 2.0
  const RTT_RXTMAX := 60.0
  const RTT_MAXNREXMT := 3

  /** `struct rtt_info`, in seconds, without the clock base. */
  datatype RttInfo = RttInfo(rtt: real, srtt: real, rttvar: real, rto: real, nrexmt: int) {
    function RtoCalc(): real { srtt + 4.0 * rttvar }
  }

  function MinMax(rto: real): (r: real)
    ensures RTT_RXTMIN <= r <= RTT_RXTMAX
    ensures RTT_RXTMIN <= rto <= RTT_RXTMAX ==> r == rto
  {
    if rto < RTT_RXTMIN then RTT_RXTMIN
    else if rto > RTT_RXTMAX then RTT_RXTMAX
    else rto
  }

  /** No value in the range is nearer to `rto` than the clamped one. */
  lemma MinMaxNearest(rto: real, x: real)
    requires RTT_RXTMIN <= x <= RTT_RXTMAX
    ensures (MinMax(rto) - rto) * (MinMax(rto) - rto) <= (x - rto) * (x - rto)
  {
  }

  /** `rtt_init`: the first RTO is three seconds. */
  function Initial(): (r: RttInfo)
    ensures r.rto == 3.0
  {
    RttInfo(0.0, 0.0, 0.75, MinMax(0.0 + 4.0 * 0.75), 0)
  }

  /** `rtt_stop`: the estimators after a measurement of `ms` milliseconds. */
  function Stopped(p: RttInfo, ms: nat): RttInfo {
    var rtt := ms as real / 1000.0;
    var delta := rtt - p.srtt;
    var srtt := p.srtt + delta / 8.0;
    var dev := if delta < 0.0 then -delta else delta;
    var rttvar := p.rttvar + (dev - p.rttvar) / 4.0;
    RttInfo(rtt, srtt, rttvar, MinMax(srtt + 4.0 * rttvar), p.nrexmt)
  }

  /** `rtt_timeout` doubles the RTO and counts a retransmission. */
  function TimedOut(p: RttInfo): RttInfo {
    p.(rto := p.rto * 2.0, nrexmt := p.nrexmt + 1)
  }

  /** `rtt_timeout` returns -1. */
  predicate GivesUp(p: RttInfo) { p.nrexmt > RTT_MAXNREXMT }

  /** `rtt_start`: round to the nearest second. */
  function Start(p: RttInfo): int { (p.rto + 0.5).Floor }

  /** The structure that `dg_send_recv` keeps between calls. */
  class RttCell {
    var rtt: real
    var srtt: real
    var rttvar: real
    var rto: real
    var nrexmt: int

    function View(): RttInfo
      reads this
    {
      RttInfo(rtt, srtt, rttvar, rto, nrexmt)
    }

    method Init()
      modifies this
      ensures View() == Initial().(nrexmt := old(nrexmt))
    {
      rtt := 0.0;
      srtt := 0.0;
      rttvar := 0.75;
      rto := MinMax(View().RtoCalc());
    }

    method NewPack()
      modifies this
      ensures View() == old(View()).(nrexmt := 0)
    {
      nrexmt := 0;
    }

    method Stop(ms: nat)
      modifies this
      ensures View() == Stopped(old(View()), ms)
    {
      rtt := ms as real / 1000.0;
      var delta := rtt - srtt;
      srtt := srtt + delta / 8.0;
      if delta < 0.0 {
        delta := -delta;
      }
      rttvar := rttvar + (delta - rttvar) / 4.0;
      rto := MinMax(View().RtoCalc());
    }

    method Timeout() returns (r: int)
      modifies this
      ensures View() == TimedOut(old(View()))
      ensures r == if GivesUp(View()) then -1 else 0
    {
      rto := rto * 2.0;
      nrexmt := nrexmt + 1;
      if nrexmt > RTT_MAXNREXMT {
        return -1;
      }
      return 0;
    }
  }

  // ----- the estimators

  function Greater(a: real, b: real): real { if a < b then b else a }

  /** The estimators never leave the range of what has been measured. */
  ghost predicate Bounded(p: RttInfo, m: real) {
    && 0.0 <= p.srtt <= m
    && 0.0 <= p.rttvar <= Greater(0.75, m)
  }

  lemma StopKeepsBounded(p: RttInfo, ms: nat, m: real)
    requires Bounded(p, m) && ms as real / 1000.0 <= m
    ensures Bounded(Stopped(p, ms), m)
  {
  }

  /** Equally far above and below `srtt`, two measurements deviate alike and move `srtt` oppositely. */
  lemma MirroredRtt(p: RttInfo, hi: nat, lo: nat)
    requires hi as real / 1000.0 + lo as real / 1000.0 == 2.0 * p.srtt
    ensures Stopped(p, hi).rttvar == Stopped(p, lo).rttvar
    ensures Stopped(p, hi).srtt + Stopped(p, lo).srtt == 2.0 * p.srtt
  {
  }

  function Power(b: real, n: nat): real {
    if n == 0 then 1.0 else b * Power(b, n - 1)
  }

  /** The estimators after `n` equal measurements. */
  function AfterConstant(ms: nat, n: nat): RttInfo {
    if n == 0 then Initial() else Stopped(AfterConstant(ms, n - 1), ms)
  }

  /**
   Under a constant round trip time R, srtt = R(1 - (7/8)^n) and
   rttvar = 0.75(3/4)^n + 2R((7/8)^n - (3/4)^n).
   */
  lemma {:induction false} ConstantRtt(ms: nat, n: nat)
    ensures var R := ms as real / 1000.0;
            var p := AfterConstant(ms, n);
            && p.srtt == R * (1.0 - Power(0.875, n))
            && p.rttvar == 0.75 * Power(0.75, n) + 2.0 * (R * (Power(0.875, n) - Power(0.75, n)))
  {
    hide Power, Stopped;
    var R := ms as real / 1000.0;
    if n == 0 {
      PowerStep(0.875, 0);
      PowerStep(0.75, 0);
    } else {
      ConstantRtt(ms, n - 1);
      var a, b := Power(0.875, n - 1), Power(0.75, n - 1);
      PowerStep(0.875, n);
      PowerStep(0.75, n);
      PowerPositive(0.875, n - 1);
      Products(R, a, b);
      ConstantStep(AfterConstant(ms, n - 1), ms, R * a, R * b, b);
    }
  }

  /** And so is the RTO: the clamped estimate plus four deviations. */
  lemma ConstantRto(ms: nat, n: nat)
    ensures var p := AfterConstant(ms, n); p.rto == MinMax(p.srtt + 4.0 * p.rttvar)
  {
  }

  lemma PowerStep(b: real, n: nat)
    ensures Power(b, n) == if n == 0 then 1.0 else b * Power(b, n - 1)
  {
  }

  lemma ConstantStep(p: RttInfo, ms: nat, x: real, y: real, b: real)
    requires p.srtt == ms as real / 1000.0 - x && 0.0 <= x
    requires p.rttvar == 0.75 * b + 2.0 * (x - y)
    ensures Stopped(p, ms).srtt == ms as real / 1000.0 - 0.875 * x
    ensures Stopped(p, ms).rttvar == 0.75 * (0.75 * b) + 2.0 * (0.875 * x - 0.75 * y)
  {
  }

  lemma {:induction false} PowerPositive(b: real, n: nat)
    requires 0.0 < b
    ensures 0.0 < Power(b, n)
  {
    if n != 0 {
      PowerPositive(b, n - 1);
    }
  }

  lemma Products(R: real, a: real, b: real)
    ensures R * (1.0 - a) == R - R * a
    ensures R * (1.0 - 0.875 * a) == R - 0.875 * (R * a)
    ensures R * (a - b) == R * a - R * b
    ensures R * (0.875 * a - 0.75 * b) == 0.875 * (R * a) - 0.75 * (R * b)
    ensures 0.0 <= R && 0.0 < a ==> 0.0 <= R * a
  {
  }
}
