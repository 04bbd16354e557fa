/**
  Boxes on which the ties of PickBranch drift: in every dimension and for either volume of
  the source, a pick that is more than a tolerance worse than the first branch.
 */
module Drifts {
  import opened Params
  import opened Rects
  import opened Partitions
  import opened Inserts

  // ---------------------------------------------------------------- powers take all values

  /** How fast the `n`-th power can grow between 0 and `m`. */
  function Slope(m: real, n: nat): real {
    if n == 0 then 0.0 else Times(m, Slope(m, n - 1)) + Power(m, n - 1)
  }

  lemma TimesParts(a: real, b: real, c: real)
    ensures Times(a, b + c) == Times(a, b) + Times(a, c)
    ensures Times(a, b - c) == Times(a, b) - Times(a, c)
    ensures Times(a + b, c) == Times(a, c) + Times(b, c)
    ensures Times(a - b, c) == Times(a, c) - Times(b, c)
    ensures Times(a, Times(b, c)) == Times(b, Times(a, c))
  {
  }

  lemma TimesSign(a: real, b: real)
    requires 0.0 <= a && 0.0 <= b
    ensures 0.0 <= Times(a, b)
  {
  }

  lemma PowerStep(x: real, n: nat)
    requires n > 0
    ensures Power(x, n) == Times(x, Power(x, n - 1))
  {
  }

  lemma {:induction false} PowerLipschitz(x: real, y: real, m: real, n: nat)
    requires 0.0 <= x <= y <= m
    ensures 0.0 <= Power(y, n) - Power(x, n) <= Times(y - x, Slope(m, n))
    decreases n
  {
    hide Times, Power;
    PowerMonotone(x, y, n);
    if n == 0 {
      NoPower(x);
      NoPower(y);
      TimesZero(y - x);
    } else {
      var p, q, s, w := Power(x, n - 1), Power(y, n - 1), Slope(m, n - 1), Power(m, n - 1);
      PowerLipschitz(x, y, m, n - 1);
      PowerMonotone(x, m, n - 1);
      PowerStep(x, n);
      PowerStep(y, n);
      // y * q - x * p == y * (q - p) + (y - x) * p
      TimesParts(y, q, p);
      TimesParts(y, x, p);
      TimesMonotone(y, m, q - p);
      TimesMonotone(q - p, Times(y - x, s), m);
      TimesMonotone(p, w, y - x);
      Swap(m, q - p);
      Swap(m, Times(y - x, s));
      Swap(p, y - x);
      Swap(w, y - x);
      TimesParts(m, y - x, s);
      TimesParts(y - x, Times(m, s), w);
    }
  }

  lemma Swap(a: real, b: real)
    ensures Times(a, b) == Times(b, a)
  {
  }

  lemma NoPower(x: real)
    ensures Power(x, 0) == 1.0
  {
  }

  lemma TimesZero(a: real)
    ensures Times(a, 0.0) == 0.0 == Times(0.0, a)
  {
  }

  /** A step of at least one raises every power by as much. */
  lemma {:induction false} PowerClimbs(h: real, z: real, n: nat)
    requires 0.0 <= h && 1.0 <= z && 1 <= n
    ensures Power(h + z, n) - Power(h, n) >= z
    decreases n
  {
    hide Times, Power;
    PowerStep(h, n);
    PowerStep(h + z, n);
    var p, q := Power(h, n - 1), Power(h + z, n - 1);
    TimesParts(h, z, q);
    TimesParts(h, q, p);
    PowerMonotone(h, h + z, n - 1);
    PowerMonotone(1.0, h + z, n - 1);
    PowerOfOne(n - 1);
    TimesSign(h, q - p);
    TimesMonotone(1.0, q, z);
    Swap(q, z);
    TimesOne(z);
  }

  lemma TimesOne(z: real)
    ensures Times(1.0, z) == z == Times(z, 1.0)
  {
  }

  lemma {:induction false} PowerOfOne(n: nat)
    ensures Power(1.0, n) == 1.0
  {
    if n > 0 {
      PowerOfOne(n - 1);
    }
  }

  function Doubled(k: nat): (d: real)
    ensures d >= k as real && d >= 1.0
  {
    if k == 0 then 1.0 else 2.0 * Doubled(k - 1)
  }

  /** Halving an interval until its image is short enough. */
  lemma {:induction false} Bisect(h: real, a: real, b: real, m: real, n: nat, lo: real, hi: real, steps: nat)
      returns (u: real)
    requires 0.0 <= h <= a <= b <= m && lo < hi
    requires Power(a, n) - Power(h, n) < lo <= Power(b, n) - Power(h, n)
    requires Times(b - a, Slope(m, n)) <= Times(hi - lo, Doubled(steps))
    ensures h <= u && lo <= Power(u, n) - Power(h, n) <= hi
    decreases steps
  {
    hide Times, Power, Slope;
    if steps == 0 {
      PowerLipschitz(a, b, m, n);
      TimesOne(hi - lo);
      u := b;
    } else {
      var c := (a + b) * 0.5;
      HalfTimes(b - a, Slope(m, n), hi - lo, Doubled(steps - 1));
      assert c - a == (b - a) * 0.5 == b - c;
      if Power(c, n) - Power(h, n) < lo {
        u := Bisect(h, c, b, m, n, lo, hi, steps - 1);
      } else {
        u := Bisect(h, a, c, m, n, lo, hi, steps - 1);
      }
    }
  }

  lemma HalfTimes(d: real, s: real, g: real, k: real)
    requires Times(d, s) <= Times(g, 2.0 * k)
    ensures Times(d * 0.5, s) <= Times(g, k)
  {
  }

  lemma EnoughSteps(x: real, g: real) returns (steps: nat)
    requires 0.0 <= x && 0.0 < g
    ensures x <= Times(g, Doubled(steps))
  {
    steps := (x / g).Floor + 1;
    assert x / g <= steps as real <= Doubled(steps);
    Quotient(x, g, Doubled(steps));
  }

  lemma Quotient(x: real, g: real, k: real)
    requires 0.0 < g && x / g <= k
    ensures x <= Times(g, k)
  {
    assert x == (x / g) * g <= k * g;
  }

  /** From any height the powers hit any window above. */
  lemma PowerReaches(h: real, n: nat, lo: real, hi: real) returns (u: real)
    requires 0.0 <= h && 1 <= n && 0.0 < lo < hi
    ensures h <= u && lo <= Power(u, n) - Power(h, n) <= hi
  {
    hide Times, Power, Slope, Doubled;
    var m := h + (1.0 + lo);
    PowerClimbs(h, 1.0 + lo, n);
    PowerLipschitz(h, m, m, n);
    var steps := EnoughSteps(Times(m - h, Slope(m, n)), hi - lo);
    u := Bisect(h, h, m, m, n, lo, hi, steps);
  }

  // ---------------------------------------------------------------- bars

  /** A box of the given extent in the first dimension and of one thickness in all others. */
  function Bar(lo: real, hi: real, thick: real): (r: Rect)
    ensures lo <= hi && 0.0 <= thick ==> Proper(r)
  {
    Rect(seq(DIM, i => if i == 0 then lo else 0.0), seq(DIM, i => if i == 0 then hi else thick))
  }

  lemma BarCombine(lo: real, hi: real, thick: real)
    requires 0.0 <= lo <= hi && 0.0 <= thick
    ensures Combine(Bar(0.0, 0.0, thick), Bar(lo, hi, thick)) == Bar(0.0, hi, thick)
  {
    var c, b := Combine(Bar(0.0, 0.0, thick), Bar(lo, hi, thick)), Bar(0.0, hi, thick);
    assert c.min == b.min && c.max == b.max;
  }

  lemma {:induction false} BarProduct(lo: real, hi: real, n: nat)
    requires 1 <= n <= DIM
    ensures Product(Bar(lo, hi, 1.0), n) == hi - lo
    decreases n
  {
    if n > 1 {
      BarProduct(lo, hi, n - 1);
    } else {
      assert Product(Bar(lo, hi, 1.0), 0) == 1.0;
    }
  }

  lemma {:induction false} BarSquares(lo: real, hi: real, n: nat)
    requires 1 <= n <= DIM
    ensures SumOfSquares(Bar(lo, hi, 0.0), n) == Times((hi - lo) * 0.5, (hi - lo) * 0.5)
    decreases n
  {
    if n > 1 {
      BarSquares(lo, hi, n - 1);
    } else {
      assert SumOfSquares(Bar(lo, hi, 0.0), 0) == 0.0;
    }
  }

  /** The spherical volume of the source, by the radius. */
  ghost predicate SourceSphere(unit: real) {
    && 0.0 < unit
    && forall radius: real | 0.0 <= radius :: SPHERE(Times(radius, radius)) == Times(Power(radius, DIM), unit)
  }

  /** It is the power of a square root, times the constant. */
  lemma SphereOfRoot(root: real -> real, unit: real)
    requires IsSquareRoot(root) && 0.0 < unit
    requires forall s: real | 0.0 <= s :: SPHERE(s) == Times(Power(root(s), DIM), unit)
    ensures SourceSphere(unit)
  {
    hide Times, Power;
    forall radius: real | 0.0 <= radius
      ensures SPHERE(Times(radius, radius)) == Times(Power(radius, DIM), unit)
    {
      var s := Times(radius, radius);
      TimesSign(radius, radius);
      assert Times(root(s), root(s)) == s;
      if root(s) < radius {
        SquareStrict(root(s), radius);
      } else if radius < root(s) {
        SquareStrict(radius, root(s));
      }
    }
  }

  /** In two dimensions it is the sum of squares times the constant. */
  lemma PlanarSphere(unit: real)
    requires DIM == 2 && 0.0 < unit
    requires forall s: real | 0.0 <= s :: SPHERE(s) == Times(s, unit)
    ensures SourceSphere(unit)
  {
    hide Times, Power;
    forall radius: real | 0.0 <= radius
      ensures SPHERE(Times(radius, radius)) == Times(Power(radius, DIM), unit)
    {
      TimesSign(radius, radius);
      PowerOfTwo(radius);
    }
  }

  function Thickness(): (t: real)
    ensures 0.0 <= t
  {
    if USE_SPHERICAL_VOLUME then 0.0 else 1.0
  }

  /** The volume of a bar of half width `h`. */
  function BarVolume(h: real, unit: real): real {
    if USE_SPHERICAL_VOLUME then Times(Power(h, DIM), unit) else 2.0 * h
  }

  lemma VolumeOfBar(lo: real, hi: real, unit: real)
    requires lo <= hi && (USE_SPHERICAL_VOLUME ==> SourceSphere(unit))
    ensures Volume(Bar(lo, hi, Thickness())) == BarVolume((hi - lo) * 0.5, unit)
  {
    hide Times, Power, Bar;
    if USE_SPHERICAL_VOLUME {
      BarSquares(lo, hi, DIM);
    } else {
      BarProduct(lo, hi, DIM);
    }
  }

  lemma {:induction false} PowerStrict(x: real, y: real, n: nat)
    requires 0.0 <= x < y && 1 <= n
    ensures Power(x, n) < Power(y, n)
    decreases n
  {
    hide Times, Power;
    PowerStep(x, n);
    PowerStep(y, n);
    if n == 1 {
      NoPower(x);
      NoPower(y);
      TimesOne(x);
      TimesOne(y);
    } else {
      PowerStrict(x, y, n - 1);
      PowerMonotone(0.0, x, n - 1);
      TimesMonotone(Power(x, n - 1), Power(y, n - 1), x);
      TimesMonotone(x, y, Power(y, n - 1));
      Swap(x, Power(x, n - 1));
      Swap(x, Power(y, n - 1));
    }
  }

  lemma LargerBar(h: real, k: real, unit: real)
    requires 0.0 <= h < k && 0.0 < unit
    ensures BarVolume(h, unit) < BarVolume(k, unit)
  {
    hide Times, Power;
    if USE_SPHERICAL_VOLUME {
      PowerStrict(h, k, DIM);
      TimesMonotone(Power(h, DIM), Power(k, DIM), unit);
    }
  }

  /** A bar can be stretched so that its volume grows by an amount in any window. */
  lemma BarReaches(h: real, unit: real, lo: real, hi: real) returns (u: real)
    requires 0.0 <= h && 0.0 < unit && 0.0 < lo < hi
    ensures h <= u && lo <= BarVolume(u, unit) - BarVolume(h, unit) <= hi
  {
    hide Times, Power;
    if USE_SPHERICAL_VOLUME {
      PerUnit(lo, hi, unit);
      u := PowerReaches(h, DIM, lo / unit, hi / unit);
      TimesMonotone(lo / unit, Power(u, DIM) - Power(h, DIM), unit);
      TimesMonotone(Power(u, DIM) - Power(h, DIM), hi / unit, unit);
      TimesParts(Power(u, DIM), Power(h, DIM), unit);
    } else {
      u := h + lo * 0.5;
    }
  }

  lemma PerUnit(lo: real, hi: real, unit: real)
    requires 0.0 < unit && 0.0 < lo < hi
    ensures 0.0 < lo / unit < hi / unit
    ensures Times(lo / unit, unit) == lo && Times(hi / unit, unit) == hi
  {
    var a, b := lo / unit, hi / unit;
    assert a * unit == lo && b * unit == hi;
    if b <= a {
      TimesMonotone(b, a, unit);
    }
    if a <= 0.0 {
      TimesMonotone(a, 0.0, unit);
    }
  }

  // ---------------------------------------------------------------- the drift

  /** Three costs, each near the one before and of a smaller box. */
  ghost predicate Drifting(cs: seq<Cost>) {
    && |cs| == 3 && cs[0].area > cs[1].area > cs[2].area
    && cs[0].increase <= cs[1].increase <= cs[2].increase
    && NearEqual(cs[1].increase, cs[0].increase) && NearEqual(cs[2].increase, cs[1].increase)
    && cs[2].increase > cs[0].increase + ZERO_TOLERANCE
  }

  lemma DriftingPick(cs: seq<Cost>)
    requires Drifting(cs)
    ensures PickUpTo(cs, 3) == 2
  {
    assert PickUpTo(cs, 1) == 0;
    assert PickUpTo(cs, 2) == 1;
  }

  /** What inserting at the origin costs below a bar of half width `h`, shifted so that it ends at `2 * u`. */
  lemma BarCost(h: real, u: real, unit: real)
    requires 0.0 <= h <= u && (USE_SPHERICAL_VOLUME ==> SourceSphere(unit))
    ensures CostOf(Bar(0.0, 0.0, Thickness()), Bar(2.0 * (u - h), 2.0 * u, Thickness()))
         == Cost(BarVolume(u, unit) - BarVolume(h, unit), BarVolume(h, unit))
  {
    hide Volume, Combine, Bar, BarVolume;
    BarCombine(2.0 * (u - h), 2.0 * u, Thickness());
    VolumeOfBar(2.0 * (u - h), 2.0 * u, unit);
    VolumeOfBar(0.0, 2.0 * u, unit);
    assert (2.0 * u - 2.0 * (u - h)) * 0.5 == h && (2.0 * u - 0.0) * 0.5 == u;
  }

  /**
    With near-ties the pick need not have the least enlargement.  In every dimension, and for
    the box volume as for the sphere of the source, there are a record and three branches
    where the pick costs more than a tolerance above the first branch.
   */
  lemma PickCanDrift(unit: real)
    requires 0.0 < unit && (USE_SPHERICAL_VOLUME ==> SourceSphere(unit))
    ensures exists r: Rect, boxes: seq<Rect> | Proper(r) && |boxes| == 3 && AllProper(boxes) ::
              Costs(r, boxes)[PickBranch(r, boxes)].increase > Costs(r, boxes)[0].increase + ZERO_TOLERANCE
  {
    hide CostOf, Bar, BarVolume, PickUpTo;
    var t, thick := ZERO_TOLERANCE, Thickness();
    var u := BarReaches(2.0, unit, 0.6 * t, 0.9 * t);
    var v := BarReaches(1.0, unit, 1.1 * t, 1.4 * t);
    var r := Bar(0.0, 0.0, thick);
    var boxes := [Bar(0.0, 6.0, thick), Bar(2.0 * (u - 2.0), 2.0 * u, thick), Bar(2.0 * (v - 1.0), 2.0 * v, thick)];
    assert 2.0 * (3.0 - 3.0) == 0.0 && 2.0 * 3.0 == 6.0;
    BarCost(3.0, 3.0, unit);
    BarCost(2.0, u, unit);
    BarCost(1.0, v, unit);
    LargerBar(1.0, 2.0, unit);
    LargerBar(2.0, 3.0, unit);
    assert Drifting(Costs(r, boxes));
    DriftingPick(Costs(r, boxes));
    assert Proper(r) && AllProper(boxes);
  }
}
