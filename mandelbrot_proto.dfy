/**
 * mandelbrot.c: the prototype kernels, which start from z = 0 rather than
 * from the seed; multibrot raises to the power 2^d by squaring d times.
 */
module MandelbrotProto {
  import opened ComplexPlane
  import opened Bytes
  import opened Escape

  /** mandelbrot: z starts at 0 and steps by z*z + z0 while |z| <= 2, up to the cap. */
  method Mandelbrot(z0: Complex, maxIterations: Word) returns (iteration: Word)
    ensures iteration == ZeroStartCount(z0, maxIterations, 1)
    ensures iteration <= maxIterations
  {
    var z := Zero;
    iteration := 0;
    while ModulusAtMost(z, 2.0) && iteration < maxIterations
      invariant iteration <= maxIterations
      invariant ZeroStartCount(z0, maxIterations, 1)
        == iteration + EscapeCount(z, z0, 1, AtMostTwo, maxIterations - iteration)
      decreases maxIterations - iteration
    {
      SquareTimesOnce(z);
      z := Add(Mul(z, z), z0);
      iteration := iteration + 1;
    }
  }

  /**
   * multibrot: like mandelbrot, but each step squares a copy of z d times
   * before adding the seed.
   */
  method Multibrot(z0: Complex, maxIterations: Word, d: Word) returns (iteration: Word)
    ensures iteration == ZeroStartCount(z0, maxIterations, d)
    ensures iteration <= maxIterations
  {
    var z := Zero;
    iteration := 0;
    while ModulusAtMost(z, 2.0) && iteration < maxIterations
      invariant iteration <= maxIterations
      invariant ZeroStartCount(z0, maxIterations, d)
        == iteration + EscapeCount(z, z0, d, AtMostTwo, maxIterations - iteration)
      decreases maxIterations - iteration
    {
      var ztemp := z;
      for i := 0 to d
        invariant ztemp == SquareTimes(z, i)
      {
        ztemp := Mul(ztemp, ztemp);
      }
      z := Add(ztemp, z0);
      iteration := iteration + 1;
    }
  }
}
