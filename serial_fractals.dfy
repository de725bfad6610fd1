/**
 * serial-fractals.c: the sequential versions of the seeded mandelbrot
 * kernel and its grid driver, and a julia kernel with an early-return guard.
 */
module SerialFractals {
  import opened ComplexPlane
  import opened Bytes
  import opened Escape
  import opened Grids
  import opened Arithmetic

  /** mandelbrot: the same count as the shared-memory version, for every seed and cap. */
  method Mandelbrot(z0: Complex, maxIterations: Word) returns (iteration: Word)
    ensures iteration == MandelbrotCount(z0, maxIterations)
  {
    var z := z0;
    iteration := 0;
    while ModulusAtMost(z, 2.0) && iteration < maxIterations
      invariant iteration <= maxIterations
      invariant z == Orbit(z0, z0, 1, iteration)
      invariant MandelbrotCount(z0, maxIterations)
        == iteration + EscapeCount(z, z0, 1, AtMostTwo, maxIterations - iteration)
      decreases maxIterations - iteration
    {
      SquareTimesOnce(z);
      z := Add(Mul(z, z), z0);
      iteration := iteration + 1;
    }
  }

  /**
   * mandelbrot_grid: fills the samples in index order; after step i the
   * samples before i hold their counts and the rest are as they were.
   */
  method MandelbrotGrid(g: Grid, maxIterations: Word)
    requires g.Valid() && g.data != null
    modifies g.data
    ensures forall i :: 0 <= i < g.size ==>
      g.x > 0 && g.y > 0 && g.data[i] == MandelbrotCount(GridToComplex(g, i), maxIterations)
  {
    var size := g.size;
    var data := g.data;
    var i := 0;
    while i < size
      invariant 0 <= i <= size
      invariant forall k :: 0 <= k < i ==>
        g.x > 0 && g.y > 0 && data[k] == MandelbrotCount(GridToComplex(g, k), maxIterations)
      invariant forall k :: i <= k < size ==> data[k] == old(data[k])
    {
      PositiveFactors(g.x, g.y);
      data[i] := Mandelbrot(GridToComplex(g, i), maxIterations);
      i := i + 1;
    }
  }

  /** The guard `R*R - R >= cabs(z0)`, that is |z0| <= R*R - R. */
  predicate EarlyReturn(radius: real, z0: Complex) {
    ModulusAtMost(z0, radius * radius - radius)
  }

  /** The count the guarded julia returns. */
  function GuardedJuliaCount(radius: real, z0: Complex, c: Complex, maxIterations: nat): (r: nat)
    ensures r <= maxIterations
  {
    if EarlyReturn(radius, z0) then 0 else JuliaCount(z0, c, maxIterations, radius)
  }

  /** julia: 0 at once when the guard holds, otherwise the escape count for |z| < R. */
  method Julia(radius: real, z0: Complex, c: Complex, maxIterations: Word) returns (iteration: Word)
    ensures iteration == GuardedJuliaCount(radius, z0, c, maxIterations)
    ensures iteration <= maxIterations
  {
    var guard := radius * radius - radius;
    if guard >= 0.0 && guard * guard >= NormSq(z0) {
      return 0;
    }
    var z := z0;
    iteration := 0;
    while ModulusBelow(z, radius) && iteration < maxIterations
      invariant iteration <= maxIterations
      invariant z == Orbit(z0, c, 1, iteration)
      invariant JuliaCount(z0, c, maxIterations, radius)
        == iteration + EscapeCount(z, c, 1, BelowRadius(radius), maxIterations - iteration)
      decreases maxIterations - iteration
    {
      SquareTimesOnce(z);
      z := Add(Mul(z, z), c);
      iteration := iteration + 1;
    }
  }

  /** The guard aside, a seed with |z0| >= R still gives 0. */
  lemma GuardedJuliaOutsideRadius(radius: real, z0: Complex, c: Complex, maxIterations: nat)
    requires radius <= 0.0 || NormSq(z0) >= radius * radius
    ensures GuardedJuliaCount(radius, z0, c, maxIterations) == 0
  {
    JuliaOutsideRadius(z0, c, maxIterations, radius);
  }

  /**
   * Once R >= 2 the guard covers every seed inside the radius, so the
   * kernel returns 0 for every seed, constant and cap.
   */
  lemma GuardedJuliaVanishes(radius: real, z0: Complex, c: Complex, maxIterations: nat)
    requires radius >= 2.0
    ensures GuardedJuliaCount(radius, z0, c, maxIterations) == 0
  {
    var t := radius * radius - radius;
    assert t - radius == (radius - 2.0) * radius;
    MulRightMonotone(0.0, radius - 2.0, radius);
    assert t >= radius;
    if !EarlyReturn(radius, z0) {
      assert NormSq(z0) > t * t;
      MulRightMonotone(radius, t, radius);
      MulRightMonotone(radius, t, t);
      assert t * t >= radius * radius;
      JuliaOutsideRadius(z0, c, maxIterations, radius);
    }
  }

  /**
   * For every R >= 2 the seed 0 with c = 0 stays at 0, yet the guarded
   * kernel gives 0 where the unguarded julia gives the cap.
   */
  lemma GuardedJuliaDiffersAtOrigin(radius: real, maxIterations: nat)
    requires radius >= 2.0 && maxIterations > 0
    ensures GuardedJuliaCount(radius, Zero, Zero, maxIterations) == 0
    ensures JuliaCount(Zero, Zero, maxIterations, radius) == maxIterations
  {
    GuardedJuliaVanishes(radius, Zero, Zero, maxIterations);
    JuliaOrigin(maxIterations, radius);
  }

  /**
   * The guard also fires below radius 2: at R = 1.5 it is 0.75 >= |0|, so
   * the origin gets 0 though its orbit stays inside the radius for the cap.
   */
  lemma GuardedJuliaFiresBelowTwo(maxIterations: nat)
    ensures GuardedJuliaCount(1.5, Zero, Zero, maxIterations) == 0
    ensures JuliaCount(Zero, Zero, maxIterations, 1.5) == maxIterations
  {
    OriginFixed(maxIterations, 1, BelowRadius(1.5));
  }
}
