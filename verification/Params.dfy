/**
  The template parameters of the R-tree.  Each is a constant of a constrained type and
  without a value, so everything proved here holds for every admissible instantiation.
 */
module Params {
  /** `_MinNodeCount` and `_MaxNodeCount`. */
  datatype Fill = Fill(min: nat, max: nat)

  /** What the two runtime asserts of `ChoosePartition` and the single root collapse need. */
  type GoodFill = f: Fill | 2 <= f.min && 2 * f.min <= f.max + 1 witness Fill(4, 8)
  const FILL: GoodFill
  const MIN: nat := FILL.min
  const MAX: nat := FILL.max

  /** `_NumDimensions`, which the source wants to be larger than 1. */
  type Dimension = d: nat | 1 < d witness 2
  const DIM: Dimension

  /** The tolerance of the tie tests, 2^-32. */
  const ZERO_TOLERANCE: real := 1.0 / 4294967296.0

  /** Strict on both sides, as the active branch of the NEAR_ZERO macro. */
  predicate NearEqual(a: real, b: real) {
    -ZERO_TOLERANCE < a - b < ZERO_TOLERANCE
  }

  /** A volume computed from a squared radius: non-negative and monotone. */
  ghost predicate IsRadial(g: real -> real) {
    && (forall x: real :: 0.0 <= x ==> 0.0 <= g(x))
    && (forall x: real, y: real :: 0.0 <= x <= y ==> g(x) <= g(y))
  }

  /**
    `pow(sqrt(s), DIM) * m_unitSphereVolume` as a function of the sum of squares `s`.
    In two dimensions it is `s * 3.141593`, the witness.
   */
  type Radial = g: real -> real | IsRadial(g) witness (s => s * 3.141593)
  const SPHERE: Radial

  /** Whether RTREE_USE_SPHERICAL_VOLUME is defined; both settings are covered. */
  const USE_SPHERICAL_VOLUME: bool

  /** `_DataType`; the tree only copies ids and compares them. */
  type Id = int
}
