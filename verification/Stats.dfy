/** Running duration statistics by Welford's recurrence, over exact reals. */
module Stats {
  import opened Numbers
  import opened Times

  ghost function Sum(ds: seq<i64>): int {
    if ds == [] then 0 else Sum(ds[..|ds| - 1]) + ds[|ds| - 1]
  }

  /** The signed deviations of `ds` from `a`, summed. */
  ghost function SumFrom(ds: seq<i64>, a: real): real {
    if ds == [] then 0.0 else SumFrom(ds[..|ds| - 1], a) + (ds[|ds| - 1] as real - a)
  }

  /** `m` is the mean of `ds`: see `MeanIsQuotient`. */
  ghost predicate IsMean(ds: seq<i64>, m: real) { SumFrom(ds, m) == 0.0 }

  /** The sum of `(d - a) * (d - b)` over `ds`. */
  ghost function Cross(ds: seq<i64>, a: real, b: real): real {
    if ds == [] then 0.0
    else Cross(ds[..|ds| - 1], a, b) + (ds[|ds| - 1] as real - a) * (ds[|ds| - 1] as real - b)
  }

  /** The sum of the squared deviations of `ds` from `m`. */
  ghost function Deviations(ds: seq<i64>, m: real): real { Cross(ds, m, m) }

  /** The sum of `(d - a) * e` over `ds`. */
  ghost function Offsets(ds: seq<i64>, a: real, e: real): real {
    if ds == [] then 0.0 else Offsets(ds[..|ds| - 1], a, e) + (ds[|ds| - 1] as real - a) * e
  }

  ghost predicate IsMin(ds: seq<i64>, m: i64) { m in ds && forall d :: d in ds ==> m <= d }

  ghost predicate IsMax(ds: seq<i64>, m: i64) { m in ds && forall d :: d in ds ==> d <= m }

  lemma {:induction false} DeviationsNonNegative(ds: seq<i64>, m: real)
    ensures Deviations(ds, m) >= 0.0
  {
    if ds != [] {
      DeviationsNonNegative(ds[..|ds| - 1], m);
      SquareNonNegative(ds[|ds| - 1] as real - m);
    }
  }

  lemma SquareNonNegative(x: real)
    ensures x * x >= 0.0
  {
  }

  lemma {:induction false} CrossMoves(ds: seq<i64>, a: real, b: real, c: real)
    ensures Cross(ds, a, c) == Cross(ds, a, b) + Offsets(ds, a, b - c)
  {
    if ds != [] {
      CrossMoves(ds[..|ds| - 1], a, b, c);
    }
  }

  lemma {:induction false} OffsetsFactor(ds: seq<i64>, a: real, e: real)
    ensures Offsets(ds, a, e) == SumFrom(ds, a) * e
  {
    if ds != [] {
      var prev := ds[..|ds| - 1];
      OffsetsFactor(prev, a, e);
      ProductStep(SumFrom(prev, a), ds[|ds| - 1] as real, a, e, SumFrom(ds, a));
    }
  }

  lemma ProductStep(u: real, x: real, a: real, e: real, u': real)
    requires u' == u + (x - a)
    ensures u' * e == u * e + (x - a) * e
  {
  }

  lemma {:induction false} OffsetOfSum(ds: seq<i64>, m: real)
    ensures SumFrom(ds, m) == Sum(ds) as real - |ds| as real * m
  {
    if ds != [] {
      OffsetOfSum(ds[..|ds| - 1], m);
      ProductStep(|ds| as real - 1.0, 1.0, 0.0, m, |ds| as real);
    }
  }

  lemma MeanIsQuotient(ds: seq<i64>, m: real)
    requires ds != []
    ensures IsMean(ds, m) <==> m == Sum(ds) as real / |ds| as real
  {
    OffsetOfSum(ds, m);
    Division(Sum(ds) as real, |ds| as real, m);
  }

  lemma Division(a: real, b: real, q: real)
    requires b > 0.0
    ensures q == a / b <==> b * q == a
  {
  }

  /** About the mean, one factor of the squared deviations may be taken from any centre. */
  lemma CrossOfMean(ds: seq<i64>, a: real, b: real, c: real)
    requires IsMean(ds, a)
    ensures Cross(ds, a, b) == Cross(ds, a, c)
  {
    CrossMoves(ds, a, b, c);
    OffsetsFactor(ds, a, b - c);
  }

  lemma {:induction false} CrossSymmetric(ds: seq<i64>, a: real, b: real)
    ensures Cross(ds, a, b) == Cross(ds, b, a)
  {
    if ds != [] {
      CrossSymmetric(ds[..|ds| - 1], a, b);
    }
  }

  /** Welford's step for the squared deviations. */
  lemma DeviationStep(ds: seq<i64>, d: i64, om: real, mean: real)
    requires IsMean(ds, om) && IsMean(ds + [d], mean)
    ensures Deviations(ds + [d], mean) == Deviations(ds, om) + (d as real - om) * (d as real - mean)
  {
    calc {
      Deviations(ds + [d], mean);
      { CrossOfMean(ds + [d], mean, mean, om); }
      Cross(ds + [d], mean, om);
      { CrossSymmetric(ds + [d], om, mean); }
      Cross(ds + [d], om, mean);
      { CrossOfPush(ds, d, om, mean); }
      Cross(ds, om, mean) + (d as real - om) * (d as real - mean);
      { CrossOfMean(ds, om, om, mean); }
      Deviations(ds, om) + (d as real - om) * (d as real - mean);
    }
  }

  lemma CrossOfPush(ds: seq<i64>, d: i64, a: real, b: real)
    ensures Cross(ds + [d], a, b) == Cross(ds, a, b) + (d as real - a) * (d as real - b)
  {
    assert (ds + [d])[..|ds|] == ds;
  }

  /** Welford's step for the mean. */
  lemma MeanStep(ds: seq<i64>, d: i64, om: real, mean: real)
    requires IsMean(ds, om)
    requires mean == om + (d as real - om) / (|ds| + 1) as real
    ensures IsMean(ds + [d], mean)
  {
    assert (ds + [d])[..|ds|] == ds;
    OffsetMoves(ds + [d], om, mean);
    Division(d as real - om, (|ds| + 1) as real, mean - om);
  }

  lemma NonNegativeQuotient(a: real, b: real)
    requires a >= 0.0 && b > 0.0
    ensures a / b >= 0.0
  {
  }

  lemma {:induction false} OffsetMoves(ds: seq<i64>, a: real, b: real)
    ensures SumFrom(ds, b) == SumFrom(ds, a) - |ds| as real * (b - a)
  {
    if ds != [] {
      OffsetMoves(ds[..|ds| - 1], a, b);
      ProductStep(|ds| as real - 1.0, 1.0, 0.0, b - a, |ds| as real);
    }
  }

  class DurationStats {
    var total: i64
    var n: nat
    var min: i64
    var max: i64
    var s: real
    var mean: real
    ghost var pushed: seq<i64>

    /** Every statistic says of the pushed durations what its name says. */
    ghost predicate Valid()
      reads this
    {
      && n == |pushed|
      && total == Wrap(Sum(pushed))
      && (n == 0 ==> s == 0.0 && mean == 0.0)
      && (n > 0 ==>
            && IsMin(pushed, min)
            && IsMax(pushed, max)
            && IsMean(pushed, mean)
            && s == Deviations(pushed, mean))
    }

    constructor ()
      ensures Valid() && pushed == []
    {
      total, n, min, max, s, mean := 0, 0, 0, 0, 0.0, 0.0;
      pushed := [];
    }

    method Push(d: i64)
      requires Valid()
      modifies this
      ensures Valid() && pushed == old(pushed) + [d]
    {
      Extend(d);
      n := n + 1;
      s, mean := Welford(d);
      pushed := pushed + [d];
    }

    /** The integer half of `Push`, before `n` is incremented. */
    method Extend(d: i64)
      requires n == |pushed| && total == Wrap(Sum(pushed))
      requires n > 0 ==> IsMin(pushed, min) && IsMax(pushed, max)
      modifies this`min, this`max, this`total
      ensures total == Wrap(Sum(pushed + [d]))
      ensures IsMin(pushed + [d], min) && IsMax(pushed + [d], max)
    {
      assert (pushed + [d])[..n] == pushed;
      WrapSum(Sum(pushed), d);
      if n == 0 {
        min := d;
        max := d;
        total := d;
      } else {
        if d < min {
          min := d;
        }
        if d > max {
          max := d;
        }
        total := Wrap(total + d);
      }
    }

    /** The floating-point half of `Push`, once `n` has been incremented. */
    method Welford(d: i64) returns (s': real, mean': real)
      requires n == |pushed| + 1
      requires IsMean(pushed, mean) && s == Deviations(pushed, mean)
      ensures IsMean(pushed + [d], mean') && s' == Deviations(pushed + [d], mean')
    {
      var om := mean;
      var fd := d as real;
      mean' := mean + (fd - om) / n as real;
      s' := s + (fd - om) * (fd - mean');
      MeanStep(pushed, d, om, mean');
      DeviationStep(pushed, d, om, mean');
    }

    /** The sample variance. */
    method Variance() returns (v: real)
      requires Valid()
      ensures v >= 0.0
      ensures n <= 1 ==> v == 0.0
      ensures n > 1 ==> IsMean(pushed, mean) && (n - 1) as real * v == Deviations(pushed, mean)
    {
      if n > 1 {
        DeviationsNonNegative(pushed, mean);
        v := s / (n - 1) as real;
        Division(s, (n - 1) as real, v);
        NonNegativeQuotient(s, (n - 1) as real);
      } else {
        v := 0.0;
      }
    }
  }
}
