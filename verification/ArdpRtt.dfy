/**
 The round-trip estimator: smoothed mean and variance in 32-bit fixed point, and the retransmission timeout.
 */
module ArdpRtt {
  import opened Seq32

  const ARDP_MIN_RTO: int := 100
  const ARDP_MAX_RTO: int := 64000
  const UDP_INITIAL_DATA_TIMEOUT: U32 := 1000
  const ARDP_HEADER_SIZE: int := 36
  const ARDP_MAX_DLEN: int := 1428

  datatype Rtt = Rtt(mean: U32, variance: U32, measured: bool)

  const FRESH: Rtt := Rtt(1000, 0, false)

  function Abs(x: int): nat { if x >= 0 then x else -x }

  // (int32_t)(a - b)
  function SignedDiff(a: U32, b: U32): int {
    var d := Sub32(a, b);
    if d < TWO31 then d else d - TWO32
  }

  function Mean(mean: U32, rtt: U32): U32 { Wrap32(Wrap32(7 * mean as int) + rtt) / 8 }

  function Variance(v: U32, err: nat, near: bool): U32 {
    if near then Wrap32(Wrap32(3 * v as int) + err) / 4 else Wrap32(Wrap32(31 * v as int) + err) / 32
  }

  // The first sample initialises the estimate.
  function Start(r: Rtt, rtt: U32): Rtt { if r.measured then r else Rtt(rtt, rtt / 2, true) }

  // AdjustRTT: the variance is weighed against the mean that has just been updated.
  function Adjust(r: Rtt, rtt: U32): Rtt {
    var r1 := Start(r, rtt);
    var mean := Mean(r1.mean, rtt);
    Rtt(mean, Variance(r1.variance, Abs(SignedDiff(rtt, r1.mean)), Wrap32(rtt as int + r1.variance) >= mean), true)
  }

  function AdjustAll(r: Rtt, samples: seq<U32>): Rtt
    decreases |samples|
  {
    if samples == [] then r else Adjust(AdjustAll(r, samples[..|samples| - 1]), samples[|samples| - 1])
  }

  function Power2(n: nat): (p: nat)
    ensures p > 0
  { if n == 0 then 1 else 2 * Power2(n - 1) }

  // GetRTO: a shift by the back-off, in 32 bits.
  function Timeout(r: Rtt, backoff: nat, dackt: U32): U32 {
    var base := Base(r);
    var ms := Wrap32(base * Power2(backoff));
    var wait := if ms > dackt then ms else dackt;
    if wait < ARDP_MAX_RTO then wait else ARDP_MAX_RTO
  }

  function Base(r: Rtt): U32 {
    var ms := Wrap32(r.mean as int + Wrap32(4 * r.variance as int));
    if ms > ARDP_MIN_RTO then ms else ARDP_MIN_RTO
  }

  class Estimator {
    var rttMean: U32
    var rttMeanVar: U32
    var rttMeanUnit: U32
    var rttInit: bool
    var backoff: nat

    ghost function Value(): Rtt
      reads this
    {
      Rtt(rttMean, rttMeanVar, rttInit)
    }

    constructor ()
      ensures Value() == FRESH && rttMeanUnit == UDP_INITIAL_DATA_TIMEOUT && backoff == 0
    {
      rttMean, rttMeanVar, rttMeanUnit, rttInit := UDP_INITIAL_DATA_TIMEOUT, 0, UDP_INITIAL_DATA_TIMEOUT, false;
      backoff := 0;
    }

    /**
     AdjustRTT, field by field, for the measured round trip of a segment. A segment never takes more than one MTU unit,
     so the mean per unit is a mean of whole round trips as well.
     */
    method AdjustRTT(rtt: U32, dataLen: nat)
      requires dataLen <= ARDP_MAX_DLEN
      modifies this
      ensures Value() == Adjust(old(Value()), rtt)
      ensures rttMeanUnit == Mean(old(rttMeanUnit), rtt) && backoff == 0
    {
      hide Wrap32, SignedDiff, Mean, Abs;
      var units := (dataLen + ARDP_HEADER_SIZE + 1471) / 1472;
      assert units == 1;
      var rttUnit: U32 := rtt / units;
      if !rttInit {
        rttMean, rttMeanVar, rttInit := rtt, rtt / 2, true;
      }
      var err := SignedDiff(rtt, rttMean);
      rttMean := Mean(rttMean, rtt);
      if Wrap32(rtt as int + rttMeanVar) >= rttMean {
        rttMeanVar := Wrap32(Wrap32(3 * rttMeanVar as int) + Abs(err)) / 4;
      } else {
        rttMeanVar := Wrap32(Wrap32(31 * rttMeanVar as int) + Abs(err)) / 32;
      }
      rttMeanUnit := Mean(rttMeanUnit, rttUnit);
      backoff := 0;
    }
  }

  ghost predicate Bounded(r: Rtt, bound: int) { r.mean <= bound && r.variance <= bound }

  // The same averages on unbounded numbers.
  function TrueMean(m: nat, rtt: nat): nat { (7 * m + rtt) / 8 }

  function TrueVariance(v: nat, err: nat, near: bool): nat { if near then (3 * v + err) / 4 else (31 * v + err) / 32 }

  // Below 2^27 nothing wraps: the update is the one on unbounded numbers.
  lemma MeanExact(m: U32, rtt: U32, bound: int)
    requires m <= bound < 0x800_0000 && rtt <= bound
    ensures Mean(m, rtt) == TrueMean(m, rtt) <= bound
  {
    NoWrap(7 * m as int);
    NoWrap(7 * m as int + rtt);
  }

  lemma NearExact(v: U32, err: nat, bound: int)
    requires v <= bound < 0x800_0000 && err <= bound
    ensures Variance(v, err, true) == TrueVariance(v, err, true) <= bound
  {
    NoWrap(3 * v as int);
    NoWrap(3 * v as int + err);
  }

  lemma FarExact(v: U32, err: nat, bound: int)
    requires v <= bound < 0x800_0000 && err <= bound
    ensures Variance(v, err, false) == TrueVariance(v, err, false) <= bound
  {
    NoWrap(31 * v as int);
    NoWrap(31 * v as int + err);
  }

  lemma StartBounded(r: Rtt, rtt: U32, bound: int)
    requires Bounded(r, bound) && rtt <= bound
    ensures Bounded(Start(r, rtt), bound)
  {
  }

  lemma StartIs(r: Rtt, rtt: U32)
    ensures Start(r, rtt) == Rtt(if r.measured then r.mean else rtt, if r.measured then r.variance else rtt / 2, true)
  {
  }

  lemma AdjustExact(r: Rtt, rtt: U32, bound: int)
    requires 0 <= bound < 0x800_0000 && Bounded(r, bound) && rtt <= bound
    ensures var was, v := if r.measured then r.mean else rtt, if r.measured then r.variance else rtt / 2;
            var mean := TrueMean(was, rtt);
            var near := rtt as int + v >= mean;
            Adjust(r, rtt) == Rtt(mean, TrueVariance(v, Abs(rtt as int - was), near), true)
    ensures Bounded(Adjust(r, rtt), bound)
  {
    StartIs(r, rtt);
    hide Start, Mean, Variance, TrueMean, TrueVariance, Wrap32, SignedDiff;
    StartBounded(r, rtt, bound);
    var r1 := Start(r, rtt);
    MeanExact(r1.mean, rtt, bound);
    SmallDiff(rtt, r1.mean);
    NoWrap(rtt as int + r1.variance);
    if rtt as int + r1.variance >= Mean(r1.mean, rtt) {
      NearExact(r1.variance, Abs(rtt as int - r1.mean), bound);
    } else {
      FarExact(r1.variance, Abs(rtt as int - r1.mean), bound);
    }
  }

  lemma NoWrap(x: int)
    requires 0 <= x < TWO32
    ensures Wrap32(x) == x
  {
  }

  lemma SmallDiff(a: U32, b: U32)
    requires a < TWO31 && b < TWO31
    ensures SignedDiff(a, b) == a as int - b
  {
    assert Sub32(a, b) == if a >= b then a as int - b else a as int - b + TWO32;
  }

  /**
   If every measured round trip is at most R, with 1000 <= R < 2^27, then in every run the mean and the variance stay
   at most R and no intermediate result ever wraps.
   */
  lemma {:induction false} EstimatesStayBounded(samples: seq<U32>, bound: int)
    requires 1000 <= bound < 0x800_0000 && forall i :: 0 <= i < |samples| ==> samples[i] <= bound
    ensures Bounded(AdjustAll(FRESH, samples), bound)
    decreases |samples|
  {
    if samples != [] {
      var front := samples[..|samples| - 1];
      EstimatesStayBounded(front, bound);
      AdjustExact(AdjustAll(FRESH, front), samples[|samples| - 1], bound);
    }
  }

  function Repeat(c: U32, n: nat): (s: seq<U32>)
    ensures |s| == n && forall i :: 0 <= i < n ==> s[i] == c
  { seq(n, _ => c) }

  // Distance of m from the interval [c - 7, c].
  function Off(m: int, c: int): nat { if m > c then m - c else if m < c - 7 then c - 7 - m else 0 }

  // One more sample c takes an eighth off the distance.
  lemma MeanStep(m: int, c: int, m': int)
    requires 0 <= m && 0 <= c && m' == (7 * m + c) / 8
    ensures Off(m', c) == 7 * Off(m, c) / 8
  {
  }

  function OffAfter(x: nat, n: nat): nat
    decreases n
  { if n == 0 then x else OffAfter(7 * x / 8, n - 1) }

  lemma {:induction false} MeanApproaches(r: Rtt, c: U32, n: nat, bound: int)
    requires 0 <= bound < 0x800_0000 && Bounded(r, bound) && c <= bound && r.measured
    ensures Off(AdjustAll(r, Repeat(c, n)).mean, c) == OffAfter(Off(r.mean, c), n)
    decreases n
  {
    if n == 0 {
      assert Repeat(c, n) == [];
    } else {
      var next := Adjust(r, c);
      AdjustExact(r, c, bound);
      MeanStep(r.mean, c, next.mean);
      hide Adjust;
      MeanApproaches(next, c, n - 1, bound);
      assert Repeat(c, n) == [c] + Repeat(c, n - 1);
      AdjustAllConcat(r, [c], Repeat(c, n - 1));
      assert AdjustAll(r, [c]) == Adjust(AdjustAll(r, []), c);
    }
  }

  // Six samples halve the distance.
  lemma SixHalve(x: nat)
    ensures OffAfter(x, 6) <= x / 2
  {
    var x1 := 7 * x / 8;
    var x2 := 7 * x1 / 8;
    var x3 := 7 * x2 / 8;
    var x4 := 7 * x3 / 8;
    var x5 := 7 * x4 / 8;
    var x6 := 7 * x5 / 8;
    assert OffAfter(x, 6) == OffAfter(x3, 3) == OffAfter(x6, 0);
  }

  lemma {:induction false} OffSplits(x: nat, n: nat, m: nat)
    ensures OffAfter(x, n + m) == OffAfter(OffAfter(x, n), m)
    decreases n
  {
    if n > 0 {
      OffSplits(7 * x / 8, n - 1, m);
    }
  }

  lemma {:induction false} OffVanishes(x: nat, k: nat, n: nat)
    requires x < Power2(k) && n >= 6 * k
    ensures OffAfter(x, n) == 0
    decreases k, n
  {
    if k > 0 {
      SixHalve(x);
      OffSplits(x, 6, n - 6);
      OffVanishes(OffAfter(x, 6), k - 1, n - 6);
    } else if n > 0 {
      OffVanishes(0, 0, n - 1);
    }
  }

  lemma {:induction false} AdjustAllConcat(r: Rtt, a: seq<U32>, b: seq<U32>)
    ensures AdjustAll(r, a + b) == AdjustAll(AdjustAll(r, a), b)
    decreases |b|
  {
    if b == [] {
      assert a + b == a;
    } else {
      assert (a + b)[..|a + b| - 1] == a + b[..|b| - 1];
      AdjustAllConcat(r, a, b[..|b| - 1]);
    }
  }

  /**
   If from some point on every sample is c, then after six samples per bit of the bound R, at most 162 in all, the mean
   lies in [c - 7, c], and it stays there from then on.
   */
  lemma MeanSettles(samples: seq<U32>, c: U32, k: nat, n: nat, bound: int)
    requires 1000 <= bound < 0x800_0000 && bound < Power2(k)
    requires c <= bound && samples != [] && forall i :: 0 <= i < |samples| ==> samples[i] <= bound
    requires n >= 6 * k
    ensures c as int - 7 <= AdjustAll(FRESH, samples + Repeat(c, n)).mean <= c
  {
    var r := AdjustAll(FRESH, samples);
    EstimatesStayBounded(samples, bound);
    AdjustAllConcat(FRESH, samples, Repeat(c, n));
    MeanApproaches(r, c, n, bound);
    OffVanishes(Off(r.mean, c), k, n);
  }

  /** The first round trip becomes the mean, and the timeout without back-off is about two and a half of it. */
  lemma FirstSample(r: Rtt, rtt: U32)
    requires !r.measured && rtt < 0x800_0000
    ensures Adjust(r, rtt) == Rtt(rtt, (3 * (rtt as int / 2)) / 4, true)
    ensures var r' := Adjust(r, rtt);
            5 * rtt as int - 9 <= 2 * (r'.mean as int + 4 * r'.variance as int) <= 5 * rtt as int
  {
    AdjustExact(r.(mean := 0, variance := 0), rtt, rtt);
    FirstIgnores(r, rtt);
    hide Adjust, AdjustAll;
  }

  lemma FirstIgnores(r: Rtt, rtt: U32)
    requires !r.measured
    ensures Adjust(r, rtt) == Adjust(r.(mean := 0, variance := 0), rtt)
  {
    hide Mean, Variance, SignedDiff, Wrap32;
  }

  // How far the variance is above 7; once the mean has settled, one more sample takes a quarter off.
  function Above(v: int): nat { if v > 7 then v - 7 else 0 }

  lemma VarianceStep(v: nat, err: nat, v': int)
    requires err <= 7 && v' == (3 * v + err) / 4
    ensures Above(v') <= 3 * Above(v) / 4
  {
  }

  function AboveAfter(x: nat, n: nat): nat
    decreases n
  { if n == 0 then x else AboveAfter(3 * x / 4, n - 1) }

  lemma {:induction false} AboveMonotone(x: nat, y: nat, n: nat)
    requires x <= y
    ensures AboveAfter(x, n) <= AboveAfter(y, n)
    decreases n
  {
    if n > 0 {
      AboveMonotone(3 * x / 4, 3 * y / 4, n - 1);
    }
  }

  lemma ThreeHalve(x: nat)
    ensures AboveAfter(x, 3) <= x / 2
  {
    var x1 := 3 * x / 4;
    var x2 := 3 * x1 / 4;
    var x3 := 3 * x2 / 4;
    assert AboveAfter(x, 3) == AboveAfter(x2, 1) == AboveAfter(x3, 0);
  }

  lemma {:induction false} AboveSplits(x: nat, n: nat, m: nat)
    ensures AboveAfter(x, n + m) == AboveAfter(AboveAfter(x, n), m)
    decreases n
  {
    if n > 0 {
      AboveSplits(3 * x / 4, n - 1, m);
    }
  }

  lemma {:induction false} AboveVanishes(x: nat, k: nat, n: nat)
    requires x < Power2(k) && n >= 3 * k
    ensures AboveAfter(x, n) == 0
    decreases k, n
  {
    if k > 0 {
      ThreeHalve(x);
      AboveSplits(x, 3, n - 3);
      AboveVanishes(AboveAfter(x, 3), k - 1, n - 3);
    } else if n > 0 {
      AboveVanishes(0, 0, n - 1);
    }
  }

  lemma {:induction false} VarianceApproaches(r: Rtt, c: U32, n: nat, bound: int)
    requires 0 <= bound < 0x800_0000 && Bounded(r, bound) && c <= bound && r.measured && c as int - 7 <= r.mean <= c
    ensures var r' := AdjustAll(r, Repeat(c, n));
            Above(r'.variance) <= AboveAfter(Above(r.variance), n) && c as int - 7 <= r'.mean <= c
    decreases n
  {
    if n == 0 {
      assert Repeat(c, n) == [];
    } else {
      var next := Adjust(r, c);
      AdjustExact(r, c, bound);
      MeanStep(r.mean, c, next.mean);
      VarianceStep(r.variance, Abs(c as int - r.mean), next.variance);
      hide Adjust;
      VarianceApproaches(next, c, n - 1, bound);
      AboveMonotone(Above(next.variance), 3 * Above(r.variance) / 4, n - 1);
      assert Repeat(c, n) == [c] + Repeat(c, n - 1);
      AdjustAllConcat(r, [c], Repeat(c, n - 1));
      assert AdjustAll(r, [c]) == Adjust(AdjustAll(r, []), c);
    }
  }

  /**
   The whole estimate settles: if from some point on every sample is c, then after nine samples per bit of the bound R,
   at most 243 in all, the mean lies in [c - 7, c], the variance is at most 7, and so the timeout before its limits and
   back-off lies between c - 7 and c + 28.
   */
  lemma EstimateSettles(samples: seq<U32>, c: U32, k: nat, n: nat, bound: int)
    requires 1000 <= bound < 0x800_0000 && bound < Power2(k)
    requires c <= bound && samples != [] && forall i :: 0 <= i < |samples| ==> samples[i] <= bound
    requires n >= 9 * k
    ensures var r := AdjustAll(FRESH, samples + Repeat(c, n));
            && c as int - 7 <= r.mean <= c && r.variance <= 7
            && c as int - 7 <= r.mean as int + 4 * r.variance as int <= c as int + 28
  {
    var more := n - 6 * k;
    var start := samples + Repeat(c, 6 * k);
    MeanSettles(samples, c, k, 6 * k, bound);
    EstimatesStayBounded(start, bound);
    MeasuredAfter(start);
    hide AdjustAll;
    assert samples + Repeat(c, n) == start + Repeat(c, more);
    AdjustAllConcat(FRESH, start, Repeat(c, more));
    var r := AdjustAll(FRESH, start);
    VarianceApproaches(r, c, more, bound);
    AboveVanishes(Above(r.variance), k, more);
  }

  lemma MeasuredAfter(samples: seq<U32>)
    requires samples != []
    ensures AdjustAll(FRESH, samples).measured
  {
  }

  /**
   As long as the shift by the back-off does not overflow, the timeout is base * 2^backoff, within the limits and not
   below the delayed-ACK time of the peer, where the base is mean + 4 variances but at least the minimum.
   */
  lemma TimeoutClamped(r: Rtt, backoff: nat, dackt: U32, bound: int)
    requires 0 <= bound < 0x800_0000 && Bounded(r, bound) && Base(r) * Power2(backoff) < TWO32
    ensures ARDP_MIN_RTO <= Timeout(r, backoff, dackt) <= ARDP_MAX_RTO
    ensures var base := Largest(100, r.mean as int + 4 * r.variance as int);
            Timeout(r, backoff, dackt) == Smallest(64000, Largest(dackt, base * Power2(backoff)))
    ensures Timeout(r, backoff, dackt) < ARDP_MAX_RTO ==>
              && Timeout(r, backoff, dackt) >= dackt
              && Timeout(r, backoff, dackt) as int >= (r.mean as int + 4 * r.variance as int) * Power2(backoff)
  {
    var p := Power2(backoff);
    NoWrap(4 * r.variance as int);
    NoWrap(r.mean as int + 4 * r.variance as int);
    NoWrap(Base(r) * p);
    Grows(Base(r), r.mean as int + 4 * r.variance as int, p);
    hide Wrap32;
  }

  function Largest(a: int, b: int): int { if a >= b then a else b }

  function Smallest(a: int, b: int): int { if a <= b then a else b }

  lemma Grows(x: nat, y: nat, p: nat)
    requires x >= y && p > 0
    ensures x * p >= y * p && x * p >= x
  {
  }

  lemma {:induction false} PowerSplits(a: nat, b: nat)
    ensures Power2(a + b) == Power2(a) * Power2(b)
    decreases a
  {
    if a == 0 {
      assert Power2(0) * Power2(b) == Power2(b);
    } else {
      PowerSplits(a - 1, b);
      hide Power2;
      PowerStep(a);
      PowerStep(a + b);
      Twice(Power2(a - 1), Power2(b));
    }
  }

  lemma PowerStep(n: nat)
    requires n > 0
    ensures Power2(n) == 2 * Power2(n - 1)
  {
  }

  lemma Twice(x: nat, y: nat)
    ensures 2 * (x * y) == (2 * x) * y
  {
  }

  lemma Powers()
    ensures Power2(7) == 128 && Power2(25) == 0x200_0000 && Power2(32) == TWO32
  {
    assert Power2(5) == 32 && Power2(7) == 4 * Power2(5);
    PowerSplits(5, 5);
    PowerSplits(10, 10);
    PowerSplits(20, 5);
    PowerSplits(25, 7);
  }

  // The shift drops the bits of the base that leave at the top.
  lemma ShiftDrops(base: nat, b: nat)
    requires b <= 32
    ensures Wrap32(base * Power2(b)) == (base % Power2(32 - b)) * Power2(b)
  {
    Powers();
    PowerSplits(32 - b, b);
    hide Power2;
    ProductRest(base, Power2(b), Power2(32 - b));
  }

  lemma ProductRest(base: nat, p: nat, t: nat)
    requires p > 0 && t > 0 && t * p == TWO32
    ensures Wrap32(base * p) == (base % t) * p
  {
    hide Wrap32;
    var q, r := base / t, base % t;
    assert base == q * t + r;
    Distributes(q, t, r, p);
    LessTimes(r, t, p);
    ModTwo32(base * p, q, r * p);
  }

  lemma ModTwo32(x: nat, q: nat, r: nat)
    requires r < TWO32 && x == q * TWO32 + r
    ensures Wrap32(x) == r
  {
  }

  lemma Distributes(q: nat, t: nat, r: nat, p: nat)
    ensures (q * t + r) * p == q * (t * p) + r * p
  {
    assert (q * t + r) * p == (q * t) * p + r * p;
  }

  lemma LessTimes(r: nat, t: nat, p: nat)
    requires r < t && p > 0
    ensures 0 <= r * p < t * p
  {
  }

  lemma {:induction false} PowerGrows(a: nat, b: nat)
    requires a <= b
    ensures Power2(a) <= Power2(b)
    decreases b
  {
    if a < b {
      PowerGrows(a, b - 1);
    }
  }

  /**
   A back-off that shifts the base out of 32 bits loses the minimum as well. For a base below 2^25, some nine hours, and
   a back-off below 32, the timeout is at least the minimum exactly when the peer's delay is, or the back-off is below
   7, or some bit of the base stays.
   */
  lemma MinimumKeptExactly(r: Rtt, backoff: nat, dackt: U32)
    requires Base(r) < 0x200_0000 && backoff < 32
    ensures Timeout(r, backoff, dackt) >= ARDP_MIN_RTO
       <==> dackt >= ARDP_MIN_RTO || backoff < 7 || Base(r) % Power2(32 - backoff) != 0
  {
    hide Base, Wrap32;
    Powers();
    var rest := Base(r) % Power2(32 - backoff);
    ShiftDrops(Base(r), backoff);
    if backoff < 7 {
      PowerGrows(25, 32 - backoff);
      SmallRest(Base(r), Power2(32 - backoff));
      AtLeastMinimum(r);
      Grows(Base(r), 0, Power2(backoff));
    } else if rest != 0 {
      PowerGrows(7, backoff);
      Grows(rest, 1, Power2(backoff));
    }
  }

  lemma SmallRest(x: nat, m: nat)
    requires x < m
    ensures x % m == x
  {
  }

  lemma AtLeastMinimum(r: Rtt)
    ensures Base(r) >= ARDP_MIN_RTO
  {
  }

  // The least base and a back-off of 30.
  lemma TimeoutVanishes(r: Rtt)
    requires r == Rtt(100, 0, true)
    ensures Timeout(r, 30, 0) < ARDP_MIN_RTO
  {
    MinimumKeptExactly(r, 30, 0);
    assert Power2(2) == 4;
  }
}
