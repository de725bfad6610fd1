/**
 * shared-fractals.c: the escape-time kernels with z starting at the seed,
 * and the drivers that fill a grid with them. The OpenMP loops are modelled
 * as sequential loops; every index is written once, independently.
 */
module SharedFractals {
  import opened ComplexPlane
  import opened Bytes
  import opened Escape
  import opened Grids
  import opened Arithmetic

  /** mandelbrot: counts the steps z <- z*z + z0 taken while |z| <= 2, up to the cap. */
  method Mandelbrot(z0: Complex, maxIterations: Word) returns (iteration: Word)
    ensures iteration == MandelbrotCount(z0, maxIterations)
    ensures iteration <= maxIterations
  {
    var z := z0;
    iteration := 0;
    while NormSq(z) <= 4.0 && iteration < maxIterations
      invariant iteration <= maxIterations
      invariant z == Orbit(z0, z0, 1, iteration)
      invariant MandelbrotCount(z0, maxIterations)
        == iteration + EscapeCount(z, z0, 1, AtMostTwo, maxIterations - iteration)
      decreases maxIterations - iteration
    {
      SquareTimesOnce(z);
      z := Add(Mul(z, z), z0);
      iteration := iteration + 1;
    }
  }

  /** mandelbrot_grid: every sample becomes the mandelbrot count of its point. */
  method MandelbrotGrid(g: Grid, maxIterations: Word)
    requires g.Valid() && g.data != null
    modifies g.data
    ensures forall i :: 0 <= i < g.size ==>
      g.x > 0 && g.y > 0 && g.data[i] == MandelbrotCount(GridToComplex(g, i), maxIterations)
  {
    var size := g.size;
    var data := g.data;
    for i := 0 to size
      invariant forall k :: 0 <= k < i ==>
        g.x > 0 && g.y > 0 && data[k] == MandelbrotCount(GridToComplex(g, k), maxIterations)
    {
      PositiveFactors(g.x, g.y);
      data[i] := Mandelbrot(GridToComplex(g, i), maxIterations);
    }
  }

  /** julia: counts the steps z <- z*z + c taken while |z| < R, up to the cap. */
  method Julia(z0: Complex, c: Complex, maxIterations: Word, radius: real) returns (iteration: Word)
    ensures iteration == JuliaCount(z0, c, maxIterations, radius)
    ensures iteration <= maxIterations
    ensures (radius <= 0.0 || NormSq(z0) >= radius * radius) ==> iteration == 0
  {
    var z := z0;
    iteration := 0;
    while ModulusBelow(z, radius) && iteration < maxIterations
      invariant iteration <= maxIterations
      invariant z == Orbit(z0, c, 1, iteration)
      invariant JuliaCount(z0, c, maxIterations, radius)
        == iteration + EscapeCount(z, c, 1, BelowRadius(radius), maxIterations - iteration)
      decreases maxIterations - iteration
    {
      SquareTimesOnce(z);
      z := Add(Mul(z, z), c);
      iteration := iteration + 1;
    }
  }

  /** julia_grid: every sample becomes the julia count of its point, for the given c and R. */
  method JuliaGrid(g: Grid, maxIterations: Word, c: Complex, radius: real)
    requires g.Valid() && g.data != null
    modifies g.data
    ensures forall i :: 0 <= i < g.size ==>
      g.x > 0 && g.y > 0 && g.data[i] == JuliaCount(GridToComplex(g, i), c, maxIterations, radius)
  {
    var size := g.size;
    var data := g.data;
    for i := 0 to size
      invariant forall k :: 0 <= k < i ==>
        g.x > 0 && g.y > 0 && data[k] == JuliaCount(GridToComplex(g, k), c, maxIterations, radius)
    {
      PositiveFactors(g.x, g.y);
      data[i] := Julia(GridToComplex(g, i), c, maxIterations, radius);
    }
  }
}
