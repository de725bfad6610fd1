/**
 * The escape-time recurrence shared by every kernel, as specification
 * functions. A kernel starts from a value z, repeatedly replaces z by
 * z^(2^d) + c while the bound test passes and the iteration cap is not
 * reached, and returns the number of steps it took.
 */
module Escape {
  import opened ComplexPlane

  /** The loop condition of a kernel: `cabs(z) <= 2` or `cabs(z) < R`. */
  datatype BoundTest = AtMostTwo | BelowRadius(radius: real)

  predicate Continues(test: BoundTest, z: Complex) {
    match test
    case AtMostTwo => ModulusAtMost(z, 2.0)
    case BelowRadius(r) => ModulusBelow(z, r)
  }

  /** z squared d times in place, as the inner loop of the integer multibrot does. */
  function SquareTimes(z: Complex, d: nat): Complex {
    if d == 0 then z else Mul(SquareTimes(z, d - 1), SquareTimes(z, d - 1))
  }

  lemma SquareTimesOnce(z: Complex)
    ensures SquareTimes(z, 1) == Mul(z, z)
  {
  }

  /** One step of the recurrence. */
  function Step(z: Complex, c: Complex, d: nat): Complex {
    Add(SquareTimes(z, d), c)
  }

  /** The value after k steps from start. */
  function Orbit(start: Complex, c: Complex, d: nat, k: nat): Complex {
    if k == 0 then start else Step(Orbit(start, c, d, k - 1), c, d)
  }

  /** The count a kernel returns when it still has `budget` iterations left at z. */
  function EscapeCount(z: Complex, c: Complex, d: nat, test: BoundTest, budget: nat): (r: nat)
    ensures r <= budget
    decreases budget
  {
    if budget == 0 || !Continues(test, z) then 0
    else 1 + EscapeCount(Step(z, c, d), c, d, test, budget - 1)
  }

  /** mandelbrot in shared-fractals.c and serial-fractals.c: z starts at the seed. */
  function MandelbrotCount(z0: Complex, maxIterations: nat): nat {
    EscapeCount(z0, z0, 1, AtMostTwo, maxIterations)
  }

  /** julia in shared-fractals.c: z starts at the seed and steps by z*z + c. */
  function JuliaCount(z0: Complex, c: Complex, maxIterations: nat, radius: real): nat {
    EscapeCount(z0, c, 1, BelowRadius(radius), maxIterations)
  }

  /** multibrot in mandelbrot.c: z starts at 0 and steps by z^(2^d) + seed. */
  function ZeroStartCount(z0: Complex, maxIterations: nat, d: nat): nat {
    EscapeCount(Zero, z0, d, AtMostTwo, maxIterations)
  }

  lemma {:induction false} OrbitShift(z: Complex, c: Complex, d: nat, k: nat)
    ensures Orbit(Step(z, c, d), c, d, k) == Orbit(z, c, d, k + 1)
  {
    if k > 0 {
      OrbitShift(z, c, d, k - 1);
    }
  }

  /**
   * The count is the first step at which the bound test fails, or the
   * budget if it never fails before then.
   */
  lemma {:induction false} EscapeCountCharacterized(z: Complex, c: Complex, d: nat, test: BoundTest, budget: nat)
    ensures var r := EscapeCount(z, c, d, test, budget);
      && r <= budget
      && (forall k :: 0 <= k < r ==> Continues(test, Orbit(z, c, d, k)))
      && (r < budget ==> !Continues(test, Orbit(z, c, d, r)))
    decreases budget
  {
    var r := EscapeCount(z, c, d, test, budget);
    if budget > 0 && Continues(test, z) {
      var z' := Step(z, c, d);
      EscapeCountCharacterized(z', c, d, test, budget - 1);
      forall k | 0 <= k < r
        ensures Continues(test, Orbit(z, c, d, k))
      {
        if k > 0 {
          OrbitShift(z, c, d, k - 1);
        }
      }
      if r < budget {
        OrbitShift(z, c, d, r - 1);
      }
    }
  }

  /** Conversely, any count with those two properties is the escape count. */
  lemma EscapeCountUnique(z: Complex, c: Complex, d: nat, test: BoundTest, budget: nat, r: nat)
    requires r <= budget
    requires forall k :: 0 <= k < r ==> Continues(test, Orbit(z, c, d, k))
    requires r < budget ==> !Continues(test, Orbit(z, c, d, r))
    ensures EscapeCount(z, c, d, test, budget) == r
  {
    EscapeCountCharacterized(z, c, d, test, budget);
  }

  /** The seed 0 never leaves the disk, so its count is the cap. */
  lemma MandelbrotOrigin(budget: nat)
    ensures EscapeCount(Zero, Zero, 1, AtMostTwo, budget) == budget
    ensures MandelbrotCount(Zero, budget) == budget
  {
    OriginFixed(budget, 1, AtMostTwo);
  }

  /** The test precedes the first step, so |z0| > 2 or a zero cap gives 0. */
  lemma MandelbrotOutsideDisk(z0: Complex, maxIterations: nat)
    requires NormSq(z0) > 4.0 || maxIterations == 0
    ensures MandelbrotCount(z0, maxIterations) == 0
  {
  }

  /** With |z0| >= R the Julia loop does not run. */
  lemma JuliaOutsideRadius(z0: Complex, c: Complex, maxIterations: nat, radius: real)
    requires radius <= 0.0 || NormSq(z0) >= radius * radius
    ensures JuliaCount(z0, c, maxIterations, radius) == 0
  {
  }

  /** The seed 0 with c = 0 stays at 0, inside every radius of at least 2. */
  lemma JuliaOrigin(budget: nat, radius: real)
    requires radius >= 2.0
    ensures JuliaCount(Zero, Zero, budget, radius) == budget
  {
    ZeroInsideRadius(radius);
    OriginFixed(budget, 1, BelowRadius(radius));
  }

  /** The origin lies strictly inside every disk of radius at least 2. */
  lemma ZeroInsideRadius(r: real)
    requires r >= 2.0
    ensures ModulusBelow(Zero, r)
  {
    SquareAtLeastFour(r);
  }

  lemma SquareAtLeastFour(r: real)
    requires r >= 2.0
    ensures r * r >= 4.0
  {
  }

  /**
   * Starting from 0 costs one step that lands on the seed; after it the
   * zero-start mandelbrot runs exactly as the seeded one.
   */
  lemma ZeroStartIsOneStepAhead(z0: Complex, maxIterations: nat)
    requires maxIterations > 0
    ensures ZeroStartCount(z0, maxIterations, 1) == 1 + MandelbrotCount(z0, maxIterations - 1)
  {
    assert Continues(AtMostTwo, Zero);
    calc {
      ZeroStartCount(z0, maxIterations, 1);
      EscapeCount(Zero, z0, 1, AtMostTwo, maxIterations);
      1 + EscapeCount(Step(Zero, z0, 1), z0, 1, AtMostTwo, maxIterations - 1);
      { StepFromZero(z0, 1); }
      1 + EscapeCount(z0, z0, 1, AtMostTwo, maxIterations - 1);
    }
  }

  lemma StepFromZero(c: Complex, d: nat)
    ensures Step(Zero, c, d) == c
  {
    SquareTimesZero(d);
  }

  /** Hence a seed with |z0| > 2 escapes after exactly one step from 0. */
  lemma ZeroStartOutsideDisk(z0: Complex, maxIterations: nat)
    requires maxIterations > 0 && NormSq(z0) > 4.0
    ensures ZeroStartCount(z0, maxIterations, 1) == 1
  {
    ZeroStartIsOneStepAhead(z0, maxIterations);
  }

  lemma ZeroStartOrigin(maxIterations: nat, d: nat)
    ensures ZeroStartCount(Zero, maxIterations, d) == maxIterations
  {
    OriginFixed(maxIterations, d, AtMostTwo);
  }

  /** 0 is a fixed point of z <- z^(2^d) + 0, so a test it passes is never failed. */
  lemma {:induction false} OriginFixed(budget: nat, d: nat, test: BoundTest)
    requires Continues(test, Zero)
    ensures EscapeCount(Zero, Zero, d, test, budget) == budget
  {
    SquareTimesZero(d);
    assert Step(Zero, Zero, d) == Zero;
    if budget > 0 {
      OriginFixed(budget - 1, d, test);
    }
  }

  lemma {:induction false} SquareTimesZero(d: nat)
    ensures SquareTimes(Zero, d) == Zero
  {
    if d > 0 {
      SquareTimesZero(d - 1);
    }
  }

  function Pow2(d: nat): (p: nat)
    ensures p >= 1
  {
    if d == 0 then 1 else 2 * Pow2(d - 1)
  }

  /** Squaring d times raises to the power 2^d, so each step is z^(2^d) + c. */
  lemma {:induction false} SquareTimesIsPower(z: Complex, d: nat)
    ensures SquareTimes(z, d) == Pow(z, Pow2(d))
  {
    if d == 0 {
      assert Pow(z, 1) == Mul(Complex(1.0, 0.0), z);
    } else {
      SquareTimesIsPower(z, d - 1);
      PowAdd(z, Pow2(d - 1), Pow2(d - 1));
    }
  }
}
