/** One learned threshold: a clamped estimate and its running average (`Target`, 3p.cc:23-41). */
module Targets {
  import opened Params

  /** The values the square root of the step size can take. */
  type PosReal = r: real | r > 0.0 witness 1.0

  /** The fields of a `Target` at one moment. */
  datatype TargetView = TargetView(value: real, avg: real, count: nat, lower: real, upper: real)
  {
    /** Both the estimate and its average lie within the fixed bounds. */
    ghost predicate Valid() {
      lower <= value <= upper && lower <= avg <= upper
    }
  }

  /** The estimate after one step, before clamping; `sqrt` stands for the square root. */
  function Moved(t: TargetView, data: real, sqrt: real -> PosReal): real {
    t.value + data / sqrt(t.count as real + LEARN_OFFSET)
  }

  /** First cut down to `upper`, then raised to `lower`, in that order. */
  function Clamp(x: real, lower: real, upper: real): (r: real)
    ensures lower <= upper ==> lower <= r <= upper
    ensures lower <= x <= upper ==> r == x
    ensures x > upper && lower <= upper ==> r == upper
    ensures x < lower ==> r == lower
  {
    var below := if x > upper then upper else x;
    if below < lower then lower else below
  }

  /** The running average after folding in `v` as the next of `count + 1` samples. */
  function Mean(avg: real, count: nat, v: real): real {
    (avg * count as real + v) / (count as real + LEARN_OFFSET)
  }

  /** The state `Target::learn` leaves behind. */
  function Learned(t: TargetView, data: real, sqrt: real -> PosReal): (r: TargetView)
    ensures r.lower == t.lower && r.upper == t.upper
    ensures r.count == t.count + 1
    ensures r.value == Clamp(Moved(t, data, sqrt), t.lower, t.upper)
  {
    var v := Clamp(Moved(t, data, sqrt), t.lower, t.upper);
    TargetView(v, Mean(t.avg, t.count, v), t.count + 1, t.lower, t.upper)
  }

  /** With `learn_offset = 1` the new average is a convex combination of the old average and the new estimate. */
  lemma AverageBetween(t: TargetView, data: real, sqrt: real -> PosReal)
    ensures var r := Learned(t, data, sqrt);
      (t.avg <= r.value ==> t.avg <= r.avg <= r.value) &&
      (r.value <= t.avg ==> r.value <= r.avg <= t.avg)
  {
    var r := Learned(t, data, sqrt);
    LearnedAverage(t, data, sqrt);
    Convex(t.avg, r.value, t.count as real, r.avg);
  }

  /** With `learn_offset = 1` the new average weighs the old one by `count` and the new
      estimate by one. */
  lemma LearnedAverage(t: TargetView, data: real, sqrt: real -> PosReal)
    ensures var r := Learned(t, data, sqrt);
      r.avg * (t.count as real + 1.0) == t.avg * t.count as real + r.value
  {
  }

  /** If `m` weighs `a` with `c` and `v` with one, it lies between them. */
  lemma Convex(a: real, v: real, c: real, m: real)
    requires c >= 0.0 && m * (c + 1.0) == a * c + v
    ensures a <= v ==> a <= m <= v
    ensures v <= a ==> v <= m <= a
  {
    var k := c + 1.0;
    // m - a and v - m are the two parts of v - a, in the ratio 1 : c
    assert (m - a) * k == v - a;
    assert (v - m) * k == (v - a) * c;
    if a <= v {
      SignOfProduct(v - a, c);
      SignOfFactor(m - a, k);
      SignOfFactor(v - m, k);
    } else {
      SignOfProduct(a - v, c);
      assert (a - m) * k == a - v;
      assert (m - v) * k == (a - v) * c;
      SignOfFactor(a - m, k);
      SignOfFactor(m - v, k);
    }
  }

  /** A product of two non-negative factors is non-negative. */
  lemma SignOfProduct(x: real, c: real)
    requires x >= 0.0 && c >= 0.0
    ensures x * c >= 0.0
  {
  }

  /** A product with a positive factor has the sign of the other factor. */
  lemma SignOfFactor(x: real, k: real)
    requires k > 0.0 && x * k >= 0.0
    ensures x >= 0.0
  {
  }

  /** A learning step keeps the estimate and its average within the bounds. */
  lemma LearnKeepsValid(t: TargetView, data: real, sqrt: real -> PosReal)
    requires t.Valid()
    ensures Learned(t, data, sqrt).Valid()
  {
    AverageBetween(t, data, sqrt);
  }

  /** The total of a sequence of reals. */
  function Sum(s: seq<real>): real {
    if |s| == 0 then 0.0 else Sum(s[..|s| - 1]) + s[|s| - 1]
  }

  /** The target after learning from each of `ds` in turn. */
  function LearnedAll(t: TargetView, ds: seq<real>, sqrt: real -> PosReal): (r: TargetView)
    ensures r.count == t.count + |ds|
  {
    if |ds| == 0 then t else Learned(LearnedAll(t, ds[..|ds| - 1], sqrt), ds[|ds| - 1], sqrt)
  }

  /** The clamped estimates those steps produce, one per step. */
  function Estimates(t: TargetView, ds: seq<real>, sqrt: real -> PosReal): (vs: seq<real>)
    ensures |vs| == |ds|
  {
    if |ds| == 0 then [] else Estimates(t, ds[..|ds| - 1], sqrt) + [LearnedAll(t, ds, sqrt).value]
  }

  /** `r`'s average over its `count` samples carries `t`'s average over `t`'s count plus
      `total` more. */
  ghost predicate Weighs(t: TargetView, r: TargetView, total: real) {
    r.avg * r.count as real == t.avg * t.count as real + total
  }

  /** After any run of steps the average weighs the starting average by the starting count
      and every estimate of the run by one. */
  lemma {:induction false} LearnedAllMean(t: TargetView, ds: seq<real>, sqrt: real -> PosReal)
    ensures Weighs(t, LearnedAll(t, ds, sqrt), Sum(Estimates(t, ds, sqrt)))
  {
    if |ds| > 0 {
      var q := ds[..|ds| - 1];
      LearnedAllMean(t, q, sqrt);
      assert Estimates(t, ds, sqrt)[..|q|] == Estimates(t, q, sqrt);
      StepMean(t, LearnedAll(t, q, sqrt), ds[|ds| - 1], sqrt, LearnedAll(t, ds, sqrt),
               Sum(Estimates(t, q, sqrt)), Sum(Estimates(t, ds, sqrt)));
    }
  }

  /** One more step adds its estimate, with weight one, to the weighted total `s0` that
      `u`'s average and count already carry. */
  lemma StepMean(t: TargetView, u: TargetView, d: real, sqrt: real -> PosReal, r: TargetView,
                 s0: real, total: real)
    requires r == Learned(u, d, sqrt)
    requires Weighs(t, u, s0) && total == s0 + r.value
    ensures Weighs(t, r, total)
  {
    StepWeighs(u, d, sqrt, r);
  }

  /** The weighting of one step, for the step `r` from `u`. */
  lemma StepWeighs(u: TargetView, d: real, sqrt: real -> PosReal, r: TargetView)
    requires r == Learned(u, d, sqrt)
    ensures r.avg * r.count as real == u.avg * u.count as real + r.value
  {
    LearnedAverage(u, d, sqrt);
    assert r.count as real == u.count as real + 1.0;
  }

  /** A target that has not learned yet holds, after `n` steps, the arithmetic mean of the
      `n` estimates it has produced: `avg` is the running mean of the learned values. */
  lemma FreshTargetMean(t: TargetView, ds: seq<real>, sqrt: real -> PosReal)
    requires t.count == 0 && |ds| > 0
    ensures LearnedAll(t, ds, sqrt).avg == Sum(Estimates(t, ds, sqrt)) / |ds| as real
  {
    LearnedAllMean(t, ds, sqrt);
    FromScratch(t, LearnedAll(t, ds, sqrt), Sum(Estimates(t, ds, sqrt)), |ds|);
  }

  /** Starting from no samples, the weighted total is `n` times the average. */
  lemma FromScratch(t: TargetView, r: TargetView, total: real, n: nat)
    requires t.count == 0 && r.count == n && n > 0 && Weighs(t, r, total)
    ensures r.avg == total / n as real
  {
  }

  class Target {
    var value: real
    var avg: real
    var count: nat
    var lower: real
    var upper: real

    /** `Target(init, lower, upper)`: both the estimate and the average start at `init`. */
    constructor (init: real, lower: real, upper: real)
      ensures View() == TargetView(init, init, 0, lower, upper)
    {
      this.value := init;
      this.avg := init;
      this.count := 0;
      this.lower := lower;
      this.upper := upper;
    }

    function View(): TargetView
      reads this
    {
      TargetView(value, avg, count, lower, upper)
    }

    /** `Target::learn`: step, clamp, fold into the average, count. */
    method Learn(data: real, sqrt: real -> PosReal)
      modifies this
      ensures View() == Learned(old(View()), data, sqrt)
    {
      ghost var t := View();
      value := value + data / sqrt(count as real + LEARN_OFFSET);
      assert value == Moved(t, data, sqrt);
      if value > upper {
        value := upper;
      }
      if value < lower {
        value := lower;
      }
      assert value == Clamp(Moved(t, data, sqrt), lower, upper);
      avg := (avg * count as real + value) / (count as real + LEARN_OFFSET);
      assert avg == Mean(t.avg, t.count, value);
      count := count + 1;
    }
  }
}
