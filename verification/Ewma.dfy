/** Rate arithmetic of fw_rate.c: per-second folding, the integer EWMA and exactly when it detects. */
module Ewma {

  const U64: nat := 0x1_0000_0000_0000_0000
  const U64_MAX: nat := U64 - 1
  /** Window rates up to here keep 3 * cur + 7 * old inside 64 bits. */
  const RATE_MAX: nat := U64_MAX / 10

  /** fw_ewma in unsigned 64-bit arithmetic. */
  function Smooth(cur: nat, prev: nat): nat { (3 * cur + 7 * prev) % U64 / 10 }

  /** fw_pps in unsigned 64-bit arithmetic. */
  function PerSecond(count: nat, elapsed: nat, hz: nat): nat
    requires hz > 0
  {
    var e := if elapsed == 0 then 1 else elapsed;
    if count > U64_MAX / hz then count / e * hz % U64 else count * hz % U64 / e
  }

  /** The smoothed value after a run of window rates. */
  function Run(start: nat, rates: seq<nat>): nat {
    if rates == [] then start else Smooth(rates[|rates| - 1], Run(start, rates[..|rates| - 1]))
  }

  ghost predicate Bounded(rates: seq<nat>, top: nat) { forall i :: 0 <= i < |rates| ==> rates[i] <= top }

  // ---------------------------------------------------------------- no wrap, no overshoot

  lemma SmoothExact(cur: nat, prev: nat)
    requires cur <= RATE_MAX && prev <= RATE_MAX
    ensures Smooth(cur, prev) == (3 * cur + 7 * prev) / 10 <= RATE_MAX
    ensures cur <= prev ==> cur <= Smooth(cur, prev) <= prev
    ensures prev <= cur ==> prev <= Smooth(cur, prev) <= cur
  {}

  /** Nothing wraps, and what never exceeds T in any window never exceeds T smoothed. */
  lemma {:induction false} NeverAbove(start: nat, rates: seq<nat>, t: nat)
    requires t <= RATE_MAX && start <= t && Bounded(rates, t)
    ensures Run(start, rates) <= t
  {
    if rates != [] {
      NeverAbove(start, rates[..|rates| - 1], t);
      SmoothExact(rates[|rates| - 1], Run(start, rates[..|rates| - 1]));
    }
  }

  /** Higher window rates and a higher start give a higher smoothed rate. */
  lemma {:induction false} RunMonotone(s1: nat, r1: seq<nat>, s2: nat, r2: seq<nat>)
    requires |r1| == |r2| && s1 <= s2 <= RATE_MAX && Bounded(r2, RATE_MAX)
    requires forall i :: 0 <= i < |r1| ==> r1[i] <= r2[i]
    ensures Run(s1, r1) <= Run(s2, r2) <= RATE_MAX
  {
    if r1 != [] {
      var m := |r1| - 1;
      RunMonotone(s1, r1[..m], s2, r2[..m]);
      SmoothExact(r1[m], Run(s1, r1[..m]));
      SmoothExact(r2[m], Run(s2, r2[..m]));
    }
  }

  // ---------------------------------------------------------------- the detection frontier

  function Constant(c: nat, n: nat): (r: seq<nat>)
    ensures |r| == n
  {
    seq(n, _ => c)
  }

  /** One window at a constant rate shrinks the gap below it to ceil(7d / 10). */
  function Shrink(d: nat): nat { (7 * d + 9) / 10 }

  function GapAfter(d: nat, n: nat): (g: nat)
    ensures g <= d
  {
    if n == 0 then d else Shrink(GapAfter(d, n - 1))
  }

  /** The smoothed rate under a constant rate c, exactly: c less the shrunken gap. */
  lemma {:induction false} GapLaw(start: nat, c: nat, n: nat)
    requires start <= c <= RATE_MAX
    ensures Run(start, Constant(c, n)) == c - GapAfter(c - start, n)
  {
    if n > 0 {
      GapLaw(start, c, n - 1);
      assert Constant(c, n)[..n - 1] == Constant(c, n - 1);
      var d := GapAfter(c - start, n - 1);
      SmoothExact(c, c - d);
      assert (3 * c + 7 * (c - d)) / 10 == c - Shrink(d);
    }
  }

  /** Windows until a gap has shrunk to 3 or less, where it stops shrinking. */
  function Windows(d: nat): nat
    decreases d
  {
    if d <= 3 then 0 else 1 + Windows(Shrink(d))
  }

  lemma {:induction false} GapSettles(d: nat, n: nat)
    requires n >= Windows(d)
    ensures GapAfter(d, n) <= 3
    decreases d, n
  {
    if n > 0 {
      GapShift(d, n - 1);
      if d <= 3 { GapSettles(d, n - 1); } else { GapSettles(Shrink(d), n - 1); }
    }
  }

  lemma {:induction false} GapShift(d: nat, n: nat)
    ensures GapAfter(d, n + 1) == GapAfter(Shrink(d), n)
  {
    if n > 0 { GapShift(d, n - 1); }
  }

  /** A gap of k <= 3 or more never shrinks below k. */
  lemma {:induction false} GapFloor(d: nat, k: nat, n: nat)
    requires k <= 3 && d >= k
    ensures GapAfter(d, n) >= k
  {
    if n > 0 { GapFloor(d, k, n - 1); }
  }

  function Log2(d: nat): nat { if d < 2 then 0 else 1 + Log2(d / 2) }

  lemma WindowsMonotone(a: nat, b: nat)
    requires a <= b
    ensures Windows(a) <= Windows(b)
    decreases b
  {
    if a > 3 { WindowsMonotone(Shrink(a), Shrink(b)); }
  }

  lemma ThreeWindows(d: nat)
    requires d >= 13
    ensures Windows(d) == 3 + Windows(Shrink(Shrink(Shrink(d))))
    ensures Shrink(Shrink(Shrink(d))) <= d / 2
  {
    assert Windows(d) == 1 + Windows(Shrink(d));
    assert Windows(Shrink(d)) == 1 + Windows(Shrink(Shrink(d)));
    assert Windows(Shrink(Shrink(d))) == 1 + Windows(Shrink(Shrink(Shrink(d))));
  }

  lemma {:induction false} WindowsSmall(d: nat)
    requires d <= 12
    ensures Windows(d) <= if d <= 3 then 0 else if d <= 4 then 1 else if d <= 5 then 2
                          else if d <= 7 then 3 else if d <= 9 then 4 else 5
    decreases d
  {
    if d > 3 { WindowsSmall(Shrink(d)); }
  }

  /** Three windows at least halve a gap, so detection takes logarithmically many windows. */
  lemma {:induction false} WindowsLogarithmic(d: nat)
    ensures Windows(d) <= 3 * Log2(d) + 5
    decreases d
  {
    if d >= 13 {
      var third := Shrink(Shrink(Shrink(d)));
      ThreeWindows(d);
      WindowsMonotone(third, d / 2);
      WindowsLogarithmic(d / 2);
    } else {
      WindowsSmall(d);
    }
  }

  /**
  A source whose every window rate is T + 4 or more is above T after `Windows(T + 4 - start)`
  windows at the latest, whatever the rates above that do.
  */
  lemma SustainedTrips(start: nat, rates: seq<nat>, t: nat)
    requires start <= t && Bounded(rates, RATE_MAX)
    requires forall i :: 0 <= i < |rates| ==> rates[i] >= t + 4
    requires rates != [] && |rates| >= Windows(t + 4 - start)
    ensures Run(start, rates) > t
  {
    var c, n := t + 4, |rates|;
    assert rates[0] <= RATE_MAX;
    RunMonotone(start, Constant(c, n), start, rates);
    GapLaw(start, c, n);
    GapSettles(c - start, n);
  }

  /**
  The exact frontier: held at a constant rate c from a start at or below T, the smoothed rate ever
  exceeds T if and only if c >= T + 4.
  */
  lemma DetectionFrontier(start: nat, c: nat, t: nat)
    requires start <= t && c <= RATE_MAX
    ensures (exists n: nat :: Run(start, Constant(c, n)) > t) <==> c >= t + 4
  {
    if c >= t + 4 {
      var n := Windows(t + 4 - start) + 1;
      SustainedTrips(start, Constant(c, n), t);
    } else {
      forall n: nat ensures Run(start, Constant(c, n)) <= t {
        if c <= t {
          var top := if start < c then c else start;
          if t <= RATE_MAX { NeverAbove(start, Constant(c, n), t); } else { RunCapped(start, Constant(c, n), t); }
        } else {
          GapLaw(start, c, n);
          GapFloor(c - start, c - t, n);
        }
      }
    }
  }

  lemma RunCapped(start: nat, rates: seq<nat>, t: nat)
    requires start <= t && t > RATE_MAX
    ensures Run(start, rates) <= t
  {
    if rates != [] {
      assert Run(start, rates) <= U64_MAX / 10;
    }
  }

  // ---------------------------------------------------------------- folding to a rate

  /** Multiplying first is exact for counts up to U64_MAX / HZ ... */
  lemma PerSecondExact(count: nat, elapsed: nat, hz: nat)
    requires hz > 0 && elapsed > 0 && count <= U64_MAX / hz
    ensures PerSecond(count, elapsed, hz) == count * hz / elapsed
  {
    ProductFits(count, hz, U64_MAX);
  }

  /** A window of no jiffies counts as one jiffy. */
  lemma PerSecondZero(count: nat, hz: nat)
    requires hz > 0 && count <= U64_MAX / hz
    ensures PerSecond(count, 0, hz) == count * hz
  {
    ProductFits(count, hz, U64_MAX);
  }

  /** The rate is count * hz / elapsed rounded down by less than `hz`. */
  predicate WithinHz(rate: nat, count: nat, elapsed: nat, hz: nat) {
    rate * elapsed <= count * hz < (rate + hz) * elapsed
  }

  /**
  ... and above that the "divide first" branch loses less than HZ packets per second exactly when its
  own product still fits 64 bits.
  */
  lemma PerSecondCoarse(count: nat, elapsed: nat, hz: nat)
    requires 0 < hz <= U64_MAX && elapsed > 0 && count > U64_MAX / hz
    ensures WithinHz(PerSecond(count, elapsed, hz), count, elapsed, hz) <==> count / elapsed * hz <= U64_MAX
  {
    var product, rate := count / elapsed * hz, PerSecond(count, elapsed, hz);
    Scaled(count, elapsed, hz, count / elapsed);
    CoarseOf(rate, product, count, elapsed, hz);
  }

  lemma CoarseOf(rate: nat, product: nat, count: nat, elapsed: nat, hz: nat)
    requires rate == product % U64 && hz <= U64_MAX && elapsed > 0
    requires product * elapsed <= count * hz < (product + hz) * elapsed
    ensures WithinHz(rate, count, elapsed, hz) <==> product <= U64_MAX
  {
    if product > U64_MAX { WrappedTooLow(rate, product, elapsed, hz); } else { Unwrapped(rate, product); }
  }

  lemma Unwrapped(rate: nat, product: nat)
    requires rate == product % U64 && product <= U64_MAX
    ensures rate == product
  {}

  lemma WrappedTooLow(rate: nat, product: nat, elapsed: nat, hz: nat)
    requires rate == product % U64 && product > U64_MAX && hz <= U64_MAX && elapsed > 0
    ensures (rate + hz) * elapsed < product * elapsed
  {
    assert product == product / U64 * U64 + rate;
    Smaller(rate + hz, product, elapsed);
  }

  lemma Smaller(a: nat, b: nat, c: nat)
    requires a < b && c > 0
    ensures a * c < b * c
  {}

  lemma Scaled(count: nat, elapsed: nat, hz: nat, q: nat)
    requires hz > 0 && elapsed > 0 && q == count / elapsed
    ensures q * hz * elapsed <= count * hz < (q * hz + hz) * elapsed
  {
    assert q * elapsed <= count < (q + 1) * elapsed;
    assert q * elapsed * hz <= count * hz < (q + 1) * elapsed * hz;
    assert (q + 1) * elapsed * hz == (q * hz + hz) * elapsed;
  }

  lemma ProductFits(a: nat, b: nat, top: nat)
    requires b > 0 && a <= top / b
    ensures a * b <= top
  {
    var q := top / b;
    assert a * b <= q * b;
    assert top == q * b + top % b;
  }

  /** Such an input: a count large enough within one jiffy comes out as rate 0. */
  lemma PerSecondWraps()
    ensures PerSecond(U64_MAX / 1024 + 1, 1, 1024) == 0
  {}

  // ---------------------------------------------------------------- the total-rate threshold

  datatype Config = Config(useStatic: bool, maxPps: nat, maxBps: nat,
                           useDynamic: bool, ratio: nat, basePps: nat, baseBps: nat)

  /** base * ratio / 100, or 0 when the product overflows 64 bits or no ratio is set. */
  function Dynamic(base: nat, ratio: nat): nat {
    if ratio == 0 || base * ratio > U64_MAX then 0 else base * ratio / 100
  }

  function Threshold(on: bool, limit: nat, dyn: bool, base: nat, ratio: nat): nat {
    var s := if on then limit else 0;
    var d := if dyn then Dynamic(base, ratio) else 0;
    if d > s then d else s
  }

  /** fw_rate_total_check */
  predicate TotalFlags(c: Config, pps: nat, bps: nat) {
    && (c.useStatic || c.useDynamic)
    && (pps > Threshold(c.useStatic, c.maxPps, c.useDynamic, c.basePps, c.ratio)
        || bps > Threshold(c.useStatic, c.maxBps, c.useDynamic, c.baseBps, c.ratio))
  }

  lemma RunStays(rates: seq<nat>, t: nat)
    requires Bounded(rates, t)
    ensures Run(0, rates) <= t
  {
    if t <= RATE_MAX { NeverAbove(0, rates, t); } else { RunCapped(0, rates, t); }
  }

  /** A source within both static limits in every window is never flagged, whatever the dynamic threshold says. */
  lemma WithinLimitsNeverFlagged(c: Config, pps: seq<nat>, bps: seq<nat>)
    requires c.useStatic && Bounded(pps, c.maxPps) && Bounded(bps, c.maxBps)
    ensures !TotalFlags(c, Run(0, pps), Run(0, bps))
  {
    RunStays(pps, c.maxPps);
    RunStays(bps, c.maxBps);
  }

  /** The threshold is the larger of the static limit, if that is on, and base * ratio / 100, if that fits. */
  lemma ThresholdMeaning(on: bool, limit: nat, dyn: bool, base: nat, ratio: nat)
    ensures var t := Threshold(on, limit, dyn, base, ratio);
      var fits := dyn && ratio > 0 && base * ratio <= U64_MAX;
      && (on ==> t >= limit) && (fits ==> 100 * t + 100 > base * ratio)
      && ((fits && 100 * t <= base * ratio) || t == if on then limit else 0)
  {
  }

  /** What the total check answers for one pair of smoothed rates. */
  lemma FlagsExactly(c: Config, pps: nat, bps: nat)
    ensures TotalFlags(c, pps, bps) <==>
      && (c.useStatic || c.useDynamic)
      && (Above(c, c.maxPps, c.basePps, pps) || Above(c, c.maxBps, c.baseBps, bps))
  {
  }

  /** Above every threshold that is in force, and above 0. */
  predicate Above(c: Config, limit: nat, base: nat, rate: nat) {
    && rate > 0 && (c.useStatic ==> rate > limit)
    && (c.useDynamic && c.ratio > 0 && base * c.ratio <= U64_MAX ==> rate > base * c.ratio / 100)
  }

  /**
  Over all windows: a source of constant rates is flagged in some window if and only if one of them is 4
  or more above its threshold.
  */
  lemma ConstantFlaggedIff(c: Config, pps: nat, bps: nat)
    requires (c.useStatic || c.useDynamic) && pps <= RATE_MAX && bps <= RATE_MAX
    ensures (exists n: nat :: TotalFlags(c, Run(0, Constant(pps, n)), Run(0, Constant(bps, n)))) <==>
      || pps >= Threshold(c.useStatic, c.maxPps, c.useDynamic, c.basePps, c.ratio) + 4
      || bps >= Threshold(c.useStatic, c.maxBps, c.useDynamic, c.baseBps, c.ratio) + 4
  {
    var t := Threshold(c.useStatic, c.maxPps, c.useDynamic, c.basePps, c.ratio);
    var u := Threshold(c.useStatic, c.maxBps, c.useDynamic, c.baseBps, c.ratio);
    DetectionFrontier(0, pps, t);
    DetectionFrontier(0, bps, u);
    if pps >= t + 4 {
      var n: nat :| Run(0, Constant(pps, n)) > t;
      assert TotalFlags(c, Run(0, Constant(pps, n)), Run(0, Constant(bps, n)));
    } else if bps >= u + 4 {
      var n: nat :| Run(0, Constant(bps, n)) > u;
      assert TotalFlags(c, Run(0, Constant(pps, n)), Run(0, Constant(bps, n)));
    }
  }
}
