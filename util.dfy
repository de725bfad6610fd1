/**
 * The lattice mapper of util.c: a resolution and an index into a row-major
 * buffer become a point of the fixed region [-2, 2] x [-2, 2], the column
 * index % x setting the real part and the row index / x the imaginary part.
 */
module Util {
  import opened ComplexPlane
  import opened Bytes
  import opened Arithmetic

  /** `vec2`: a resolution, x columns by y rows. */
  datatype Vec2 = Vec2(x: Word, y: Word)

  /** The fixed region every lattice is laid over. */
  const RegionMin: real := -2.0
  const RegionMax: real := 2.0

  /**
   * lattice_to_complex: column and row steps of (max - min) / resolution
   * from the lower corner; the column never reaches the right edge.
   */
  function LatticeToComplex(index: Word, resolution: Vec2): (p: Complex)
    requires resolution.x > 0 && resolution.y > 0
    ensures RegionMin <= p.re < RegionMax
  {
    StepsBelowExtent(index % resolution.x, resolution.x, RegionMax - RegionMin);
    var xStep := (RegionMax - RegionMin) / (resolution.x as real);
    var yStep := (RegionMax - RegionMin) / (resolution.y as real);
    var xIndex := index % resolution.x;
    var yIndex := index / resolution.x;
    Complex(RegionMin + (xIndex as real) * xStep, RegionMin + (yIndex as real) * yStep)
  }

  /** The first index names the lower-left corner (-2, -2). */
  lemma LatticeOrigin(resolution: Vec2)
    requires resolution.x > 0 && resolution.y > 0
    ensures LatticeToComplex(0, resolution) == Complex(RegionMin, RegionMin)
  {
  }

  /**
   * The imaginary part lies in [-2, 2) exactly for the indices of an
   * x by y buffer; any later index lands on or above the top edge.
   */
  lemma LatticeImagInside(index: Word, resolution: Vec2)
    requires resolution.x > 0 && resolution.y > 0
    ensures RegionMin <= LatticeToComplex(index, resolution).im
    ensures LatticeToComplex(index, resolution).im < RegionMax <==> index < resolution.x * resolution.y
  {
    var row := index / resolution.x;
    if index < resolution.x * resolution.y {
      assert row < resolution.y by {
        MulCommutes(resolution.x, resolution.y);
        DivBelow(index, resolution.y, resolution.x);
      }
      StepsBelowExtent(row, resolution.y, RegionMax - RegionMin);
    } else {
      assert row >= resolution.y by {
        if row < resolution.y {
          assert row + 1 <= resolution.y;
          assert index < (row + 1) * resolution.x;
          MulMonotone(row + 1, resolution.y, resolution.x);
          MulCommutes(resolution.x, resolution.y);
        }
      }
      StepsReachExtent(row, resolution.y, RegionMax - RegionMin);
    }
  }

  lemma MulCommutes(a: nat, b: nat)
    ensures a * b == b * a
  {
  }

  /** Two indices share their real part exactly when they share their column. */
  lemma LatticeColumn(i: Word, j: Word, resolution: Vec2)
    requires resolution.x > 0 && resolution.y > 0
    ensures LatticeToComplex(i, resolution).re == LatticeToComplex(j, resolution).re
        <==> i % resolution.x == j % resolution.x
  {
    var s := (RegionMax - RegionMin) / (resolution.x as real);
    var a, b := i % resolution.x, j % resolution.x;
    assert LatticeToComplex(i, resolution).re == RegionMin + (a as real) * s;
    assert LatticeToComplex(j, resolution).re == RegionMin + (b as real) * s;
    StepsEqualIff(RegionMin, a, b, s);
  }

  /** Two indices share their imaginary part exactly when they share their row. */
  lemma LatticeRow(i: Word, j: Word, resolution: Vec2)
    requires resolution.x > 0 && resolution.y > 0
    ensures LatticeToComplex(i, resolution).im == LatticeToComplex(j, resolution).im
        <==> i / resolution.x == j / resolution.x
  {
    var s := (RegionMax - RegionMin) / (resolution.y as real);
    var a, b := i / resolution.x, j / resolution.x;
    assert LatticeToComplex(i, resolution).im == RegionMin + (a as real) * s;
    assert LatticeToComplex(j, resolution).im == RegionMin + (b as real) * s;
    StepsEqualIff(RegionMin, a, b, s);
  }

  /** Distinct indices map to distinct points. */
  lemma LatticeInjective(i: Word, j: Word, resolution: Vec2)
    requires resolution.x > 0 && resolution.y > 0
    requires LatticeToComplex(i, resolution) == LatticeToComplex(j, resolution)
    ensures i == j
  {
    LatticeColumn(i, j, resolution);
    LatticeRow(i, j, resolution);
    QuotientRemainderDetermine(i, j, resolution.x);
  }
}
