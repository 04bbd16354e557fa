/**
  Bounding rectangles: combination, containment, overlap and volume, and the lattice
  laws all pruning and all bounding boxes rest on.
 */
module Rects {
  import opened Params

  type Vec = v: seq<real> | |v| == DIM witness seq(DIM, i => 0.0)

  datatype Rect = Rect(min: Vec, max: Vec)

  predicate Proper(r: Rect) {
    forall i | 0 <= i < DIM :: r.min[i] <= r.max[i]
  }

  predicate Contains(a: Rect, b: Rect) {
    forall i | 0 <= i < DIM :: a.min[i] <= b.min[i] && b.max[i] <= a.max[i]
  }

  predicate Overlaps(a: Rect, b: Rect) {
    forall i | 0 <= i < DIM :: a.min[i] <= b.max[i] && b.min[i] <= a.max[i]
  }

  function Least(x: real, y: real): real {
    if y < x then y else x
  }

  function Greatest(x: real, y: real): real {
    if x < y then y else x
  }

  function Combine(a: Rect, b: Rect): (c: Rect) {
    Rect(seq(DIM, i requires 0 <= i < DIM => Least(a.min[i], b.min[i])),
         seq(DIM, i requires 0 <= i < DIM => Greatest(a.max[i], b.max[i])))
  }

  // ---------------------------------------------------------------- the lattice

  lemma ContainsAntisymmetric(a: Rect, b: Rect)
    requires Contains(a, b) && Contains(b, a)
    ensures a == b
  {
    assert forall i | 0 <= i < DIM :: a.min[i] == b.min[i] && a.max[i] == b.max[i];
  }

  lemma ContainsTransitive(a: Rect, b: Rect, c: Rect)
    requires Contains(a, b) && Contains(b, c)
    ensures Contains(a, c)
  {
  }

  /** `Combine` is the least upper bound of the containment order. */
  lemma CombineIsJoin(a: Rect, b: Rect)
    ensures Contains(Combine(a, b), a) && Contains(Combine(a, b), b)
    ensures forall c :: Contains(c, a) && Contains(c, b) ==> Contains(c, Combine(a, b))
    ensures Proper(a) || Proper(b) ==> Proper(Combine(a, b))
  {
  }

  // ---------------------------------------------------------------- boxes as sets of points

  predicate Inside(p: Vec, r: Rect) {
    forall i | 0 <= i < DIM :: r.min[i] <= p[i] <= r.max[i]
  }

  lemma ProperHasPoints(r: Rect)
    ensures Proper(r) <==> exists p: Vec :: Inside(p, r)
  {
    if Proper(r) {
      assert Inside(r.min, r);
    }
    if p: Vec :| Inside(p, r) {
      assert forall i | 0 <= i < DIM :: r.min[i] <= p[i] <= r.max[i];
    }
  }

  /** Nothing but the point itself is inside a point. */
  lemma InsidePoint(p: Vec, q: Vec)
    ensures Inside(p, Rect(q, q)) <==> p == q
  {
    if Inside(p, Rect(q, q)) {
      assert forall i | 0 <= i < DIM :: p[i] == q[i];
    }
  }

  /** Containment is that of the sets of points. */
  lemma ContainsIsInclusion(a: Rect, b: Rect)
    requires Proper(b)
    ensures Contains(a, b) <==> forall p: Vec | Inside(p, b) :: Inside(p, a)
  {
    if forall p: Vec | Inside(p, b) :: Inside(p, a) {
      assert Inside(b.min, b) && Inside(b.max, b);
      assert Inside(b.min, a) && Inside(b.max, a);
    }
  }

  /** Overlap is having a point in common. */
  lemma OverlapIsCommonPoint(a: Rect, b: Rect)
    requires Proper(a) && Proper(b)
    ensures Overlaps(a, b) <==> exists p: Vec :: Contains(a, Rect(p, p)) && Contains(b, Rect(p, p))
    ensures Overlaps(a, b) <==> exists p: Vec :: Inside(p, a) && Inside(p, b)
  {
    if Overlaps(a, b) {
      var p: Vec := seq(DIM, i requires 0 <= i < DIM => Greatest(a.min[i], b.min[i]));
      assert Inside(p, a) && Inside(p, b);
      assert Contains(a, Rect(p, p)) && Contains(b, Rect(p, p));
    }
    if p: Vec :| Contains(a, Rect(p, p)) && Contains(b, Rect(p, p)) {
      CommonPointOverlaps(a, b, p);
    }
    if p: Vec :| Inside(p, a) && Inside(p, b) {
      CommonPointOverlaps(a, b, p);
    }
  }

  lemma CommonPointOverlaps(a: Rect, b: Rect, p: Vec)
    requires (Contains(a, Rect(p, p)) && Contains(b, Rect(p, p))) || (Inside(p, a) && Inside(p, b))
    ensures Overlaps(a, b)
  {
    forall i | 0 <= i < DIM
      ensures a.min[i] <= b.max[i] && b.min[i] <= a.max[i]
    {
      assert a.min[i] <= p[i] <= a.max[i] && b.min[i] <= p[i] <= b.max[i];
    }
  }

  /** A box that overlaps a rectangle overlaps whatever contains that rectangle. */
  lemma OverlapMonotone(q: Rect, outer: Rect, inner: Rect)
    requires Contains(outer, inner) && Overlaps(q, inner)
    ensures Overlaps(q, outer) && Overlaps(outer, q)
  {
    forall i | 0 <= i < DIM
      ensures q.min[i] <= outer.max[i] && outer.min[i] <= q.max[i]
    {
      assert q.min[i] <= inner.max[i] && inner.min[i] <= q.max[i];
      assert outer.min[i] <= inner.min[i] && inner.max[i] <= outer.max[i];
    }
  }

  // ---------------------------------------------------------------- covers

  function Cover(rs: seq<Rect>): Rect
    requires rs != []
  {
    if |rs| == 1 then rs[0] else Combine(Cover(rs[..|rs| - 1]), rs[|rs| - 1])
  }

  ghost predicate Bounds(c: Rect, rs: seq<Rect>) {
    forall i | 0 <= i < |rs| :: Contains(c, rs[i])
  }

  /** A cover is the least box around its rectangles. */
  lemma {:induction false} CoverIsLeast(rs: seq<Rect>)
    requires rs != []
    ensures Bounds(Cover(rs), rs)
    ensures forall c | Bounds(c, rs) :: Contains(c, Cover(rs))
    ensures (exists i | 0 <= i < |rs| :: Proper(rs[i])) ==> Proper(Cover(rs))
  {
    if |rs| > 1 {
      var n := |rs| - 1;
      var front := rs[..n];
      CoverIsLeast(front);
      CombineIsJoin(Cover(front), rs[n]);
      forall i | 0 <= i < |rs|
        ensures Contains(Cover(rs), rs[i])
      {
        if i < n {
          assert front[i] == rs[i];
          ContainsTransitive(Cover(rs), Cover(front), rs[i]);
        }
      }
      forall c | Bounds(c, rs)
        ensures Contains(c, Cover(rs))
      {
        assert Bounds(c, front);
        assert Contains(c, rs[n]);
      }
      if i :| 0 <= i < |rs| && Proper(rs[i]) {
        if i < n {
          assert front[i] == rs[i];
        }
      }
    }
  }

  /** Covers do not depend on the order the rectangles are combined in. */
  lemma CoverUnique(c: Rect, rs: seq<Rect>)
    requires rs != [] && Bounds(c, rs)
    requires forall d | Bounds(d, rs) :: Contains(d, c)
    ensures c == Cover(rs)
  {
    CoverIsLeast(rs);
    ContainsAntisymmetric(c, Cover(rs));
  }

  // ---------------------------------------------------------------- volume

  function HalfExtent(r: Rect, i: nat): real
    requires i < DIM
  {
    (r.max[i] - r.min[i]) * 0.5
  }

  function SumOfSquares(r: Rect, n: nat): real
    requires n <= DIM
  {
    if n == 0 then 0.0 else SumOfSquares(r, n - 1) + HalfExtent(r, n - 1) * HalfExtent(r, n - 1)
  }

  function Product(r: Rect, n: nat): real
    requires n <= DIM
  {
    if n == 0 then 1.0 else Product(r, n - 1) * (r.max[n - 1] - r.min[n - 1])
  }

  /** The volume of the bounding sphere, or of the box itself. */
  function Volume(r: Rect): real {
    if USE_SPHERICAL_VOLUME then SPHERE(SumOfSquares(r, DIM)) else Product(r, DIM)
  }

  lemma SquareMonotone(x: real, y: real)
    requires 0.0 <= x <= y
    ensures 0.0 <= x * x <= y * y
  {
    assert x * x <= x * y <= y * y;
  }

  lemma {:induction false} SumOfSquaresMonotone(a: Rect, b: Rect, n: nat)
    requires n <= DIM && Contains(a, b) && Proper(b)
    ensures 0.0 <= SumOfSquares(b, n) <= SumOfSquares(a, n)
  {
    if n > 0 {
      SumOfSquaresMonotone(a, b, n - 1);
      var i := n - 1;
      assert a.min[i] <= b.min[i] <= b.max[i] <= a.max[i];
      SquareMonotone(HalfExtent(b, i), HalfExtent(a, i));
    }
  }

  lemma ProductOfLess(a: real, b: real, x: real, y: real)
    requires 0.0 <= a <= b && 0.0 <= x <= y
    ensures 0.0 <= a * x <= b * y
  {
    assert a * x <= b * x <= b * y;
  }

  lemma {:induction false} ProductMonotone(a: Rect, b: Rect, n: nat)
    requires n <= DIM && Contains(a, b) && Proper(b)
    ensures 0.0 <= Product(b, n) <= Product(a, n)
  {
    if n > 0 {
      var i := n - 1;
      ProductMonotone(a, b, i);
      assert a.min[i] <= b.min[i] <= b.max[i] <= a.max[i];
      ProductOfLess(Product(b, i), Product(a, i), b.max[i] - b.min[i], a.max[i] - a.min[i]);
    }
  }

  /** Two boxes of the same extents in all dimensions but one. */
  ghost predicate SameBut(a: Rect, b: Rect, k: nat) {
    forall i | 0 <= i < DIM && i != k :: a.max[i] - a.min[i] == b.max[i] - b.min[i]
  }

  /** The box volume is proportional to each extent. */
  lemma {:induction false} ProductStretches(a: Rect, b: Rect, k: nat, n: nat)
    requires k < n <= DIM && SameBut(a, b, k)
    ensures Product(a, n) * (b.max[k] - b.min[k]) == Product(b, n) * (a.max[k] - a.min[k])
    decreases n
  {
    var i := n - 1;
    if k == i {
      ProductSame(a, b, k, i);
      Exchange3(Product(a, i), a.max[k] - a.min[k], b.max[k] - b.min[k]);
    } else {
      ProductStretches(a, b, k, i);
      Exchange4(Product(a, i), Product(b, i), a.max[i] - a.min[i], a.max[k] - a.min[k], b.max[k] - b.min[k]);
    }
  }

  lemma Exchange3(p: real, x: real, y: real)
    ensures p * x * y == p * y * x
  {
  }

  lemma Exchange4(p: real, q: real, e: real, x: real, y: real)
    requires p * y == q * x
    ensures p * e * y == q * e * x
  {
    assert p * e * y == e * (p * y);
    assert q * e * x == e * (q * x);
  }

  lemma {:induction false} ProductSame(a: Rect, b: Rect, k: nat, n: nat)
    requires n <= k && n <= DIM && SameBut(a, b, k)
    ensures Product(a, n) == Product(b, n)
    decreases n
  {
    if n > 0 {
      ProductSame(a, b, k, n - 1);
    }
  }

  /** The unit of box volume. */
  lemma {:induction false} ProductOfUnits(r: Rect, n: nat)
    requires n <= DIM && forall i | 0 <= i < n :: r.max[i] - r.min[i] == 1.0
    ensures Product(r, n) == 1.0
    decreases n
  {
    if n > 0 {
      ProductOfUnits(r, n - 1);
    }
  }

  /** Stretching one extent changes the sum of squares by what its half contributes. */
  lemma {:induction false} SquaresStretch(a: Rect, b: Rect, k: nat, n: nat)
    requires k < n <= DIM && SameBut(a, b, k)
    ensures var x, y := (a.max[k] - a.min[k]) / 2.0, (b.max[k] - b.min[k]) / 2.0;
      SumOfSquares(b, n) - SumOfSquares(a, n) == y * y - x * x
    decreases n
  {
    var i := n - 1;
    assert HalfExtent(a, k) == (a.max[k] - a.min[k]) / 2.0 && HalfExtent(b, k) == (b.max[k] - b.min[k]) / 2.0;
    if k == i {
      SquaresSame(a, b, k, i);
    } else {
      SquaresStretch(a, b, k, i);
      assert HalfExtent(a, i) == HalfExtent(b, i);
    }
  }

  lemma {:induction false} SquaresSame(a: Rect, b: Rect, k: nat, n: nat)
    requires n <= k && n <= DIM && SameBut(a, b, k)
    ensures SumOfSquares(a, n) == SumOfSquares(b, n)
    decreases n
  {
    if n > 0 {
      SquaresSame(a, b, k, n - 1);
      assert HalfExtent(a, n - 1) == HalfExtent(b, n - 1);
    }
  }

  lemma {:induction false} SquaresOfPoint(p: Vec, n: nat)
    requires n <= DIM
    ensures SumOfSquares(Rect(p, p), n) == 0.0
    decreases n
  {
    if n > 0 {
      SquaresOfPoint(p, n - 1);
      assert HalfExtent(Rect(p, p), n - 1) == 0.0;
    }
  }

  /** What fixes the volume of a box: 1 for the unit box, and proportional to each extent. */
  lemma BoxVolumeStretches(a: Rect, b: Rect, k: nat)
    requires !USE_SPHERICAL_VOLUME && k < DIM && SameBut(a, b, k)
    ensures Volume(a) * (b.max[k] - b.min[k]) == Volume(b) * (a.max[k] - a.min[k])
    ensures (forall i | 0 <= i < DIM :: a.max[i] - a.min[i] == 1.0) ==> Volume(a) == 1.0
  {
    hide Product, SameBut;
    ProductStretches(a, b, k, DIM);
    if forall i | 0 <= i < DIM :: a.max[i] - a.min[i] == 1.0 {
      ProductOfUnits(a, DIM);
    }
  }

  /**
    What fixes the volume of a sphere: it depends on a sum that is 0 for a point and gains the
    difference of the squared halves when one extent changes.
   */
  lemma SphereVolumeStretches(a: Rect, b: Rect, k: nat)
    requires USE_SPHERICAL_VOLUME && k < DIM && SameBut(a, b, k)
    ensures Volume(a) == SPHERE(SumOfSquares(a, DIM)) && Volume(b) == SPHERE(SumOfSquares(b, DIM))
    ensures var x, y := (a.max[k] - a.min[k]) / 2.0, (b.max[k] - b.min[k]) / 2.0;
      SumOfSquares(b, DIM) - SumOfSquares(a, DIM) == y * y - x * x
    ensures a.min == a.max ==> Volume(a) == SPHERE(0.0)
  {
    hide SumOfSquares, SameBut;
    SquaresStretch(a, b, k, DIM);
    if a.min == a.max {
      SquaresOfPoint(a.min, DIM);
    }
  }

  // The spheres of the source are radial in every dimension.

  function Power(x: real, n: nat): real {
    if n == 0 then 1.0 else x * Power(x, n - 1)
  }

  lemma {:induction false} PowerMonotone(x: real, y: real, n: nat)
    requires 0.0 <= x <= y
    ensures 0.0 <= Power(x, n) <= Power(y, n)
  {
    if n > 0 {
      PowerMonotone(x, y, n - 1);
      ProductOfLess(x, y, Power(x, n - 1), Power(y, n - 1));
    }
  }

  function Times(x: real, y: real): real {
    x * y
  }

  ghost predicate IsSquareRoot(root: real -> real) {
    forall s: real | 0.0 <= s :: 0.0 <= root(s) && Times(root(s), root(s)) == s
  }

  lemma TimesMonotone(x: real, y: real, c: real)
    requires 0.0 <= c
    ensures x <= y ==> Times(x, c) <= Times(y, c)
    ensures x < y && 0.0 < c ==> Times(x, c) < Times(y, c)
    ensures Times(x, y) == Times(y, x)
  {
  }

  lemma SquareStrict(x: real, y: real)
    requires 0.0 <= x < y
    ensures Times(x, x) < Times(y, y)
  {
    hide Times;
    TimesMonotone(x, y, x);
    TimesMonotone(x, y, y);
  }

  lemma RootMonotone(root: real -> real, s: real, t: real)
    requires IsSquareRoot(root) && 0.0 <= s <= t
    ensures 0.0 <= root(s) <= root(t)
  {
    hide Times;
    if root(t) < root(s) {
      SquareStrict(root(t), root(s));
    }
  }

  /** `pow(radius, n) * unit` with the radius as the square root of the sum of squares. */
  lemma SpheresAreRadial(g: real -> real, root: real -> real, n: nat, unit: real)
    requires IsSquareRoot(root) && 0.0 <= unit
    requires forall s: real | 0.0 <= s :: g(s) == Power(root(s), n) * unit
    ensures IsRadial(g)
    ensures n == 2 ==> forall s: real | 0.0 <= s :: g(s) == s * unit
  {
    hide Power;
    forall x: real, y: real | 0.0 <= x <= y
      ensures 0.0 <= g(x) <= g(y)
    {
      RootMonotone(root, x, y);
      PowerMonotone(root(x), root(y), n);
      ProductOfLess(Power(root(x), n), Power(root(y), n), unit, unit);
    }
    if n == 2 {
      forall s: real | 0.0 <= s
        ensures g(s) == s * unit
      {
        PowerOfTwo(root(s));
      }
    }
  }

  lemma PowerOfTwo(x: real)
    ensures Power(x, 2) == Times(x, x)
  {
    assert Power(x, 1) == x * Power(x, 0) == x;
  }

  /** Volume never shrinks when a box grows. */
  lemma VolumeMonotone(a: Rect, b: Rect)
    requires Contains(a, b) && Proper(b)
    ensures 0.0 <= Volume(b) <= Volume(a)
  {
    if USE_SPHERICAL_VOLUME {
      SumOfSquaresMonotone(a, b, DIM);
    } else {
      ProductMonotone(a, b, DIM);
    }
  }

  // ---------------------------------------------------------------- the loops of the source

  method CombineRect(a: Rect, b: Rect) returns (c: Rect)
    ensures c == Combine(a, b)
  {
    var lo: seq<real>, hi: seq<real> := [], [];
    for index := 0 to DIM
      invariant |lo| == |hi| == index
      invariant forall i | 0 <= i < index :: lo[i] == Least(a.min[i], b.min[i])
      invariant forall i | 0 <= i < index :: hi[i] == Greatest(a.max[i], b.max[i])
    {
      lo := lo + [Least(a.min[index], b.min[index])];
      hi := hi + [Greatest(a.max[index], b.max[index])];
    }
    c := Rect(lo, hi);
  }

  method Overlap(a: Rect, b: Rect) returns (yes: bool)
    ensures yes == Overlaps(a, b)
  {
    for index := 0 to DIM
      invariant forall i | 0 <= i < index :: a.min[i] <= b.max[i] && b.min[i] <= a.max[i]
    {
      if a.min[index] > b.max[index] || b.min[index] > a.max[index] {
        return false;
      }
    }
    return true;
  }

  method RectSphericalVolume(r: Rect) returns (volume: real)
    ensures volume == SPHERE(SumOfSquares(r, DIM))
  {
    var sumOfSquares := 0.0;
    for index := 0 to DIM
      invariant sumOfSquares == SumOfSquares(r, index)
    {
      var halfExtent := (r.max[index] - r.min[index]) * 0.5;
      sumOfSquares := sumOfSquares + halfExtent * halfExtent;
    }
    volume := SPHERE(sumOfSquares);
  }

  method RectVolume(r: Rect) returns (volume: real)
    ensures volume == Product(r, DIM)
  {
    volume := 1.0;
    for index := 0 to DIM
      invariant volume == Product(r, index)
    {
      volume := volume * (r.max[index] - r.min[index]);
    }
  }

  method CalcRectVolume(r: Rect) returns (volume: real)
    ensures volume == Volume(r)
  {
    if USE_SPHERICAL_VOLUME {
      volume := RectSphericalVolume(r);
    } else {
      volume := RectVolume(r);
    }
  }
}
