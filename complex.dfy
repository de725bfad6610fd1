/**
 * Complex numbers over exact reals. The C code uses `double complex` or
 * `long double complex`; here rounding is not modelled and every operation
 * is exact.
 */
module ComplexPlane {

  datatype Complex = Complex(re: real, im: real)

  const Zero: Complex := Complex(0.0, 0.0)

  function Add(a: Complex, b: Complex): Complex {
    Complex(a.re + b.re, a.im + b.im)
  }

  function Sub(a: Complex, b: Complex): Complex {
    Complex(a.re - b.re, a.im - b.im)
  }

  function Mul(a: Complex, b: Complex): Complex {
    Complex(a.re * b.re - a.im * b.im, a.re * b.im + a.im * b.re)
  }

  /** Division by a non-zero real, as in `z / 2.0` or `z / magnification`. */
  function DivReal(a: Complex, k: real): Complex
    requires k != 0.0
  {
    Complex(a.re / k, a.im / k)
  }

  /** The squared modulus |z|^2; comparisons with |z| are stated through it. */
  function NormSq(z: Complex): (n: real)
    ensures n >= 0.0
  {
    z.re * z.re + z.im * z.im
  }

  /** |z| <= r, stated without a square root. */
  predicate ModulusAtMost(z: Complex, r: real) {
    r >= 0.0 && NormSq(z) <= r * r
  }

  /** |z| < r, stated without a square root (false for every z when r <= 0). */
  predicate ModulusBelow(z: Complex, r: real) {
    r > 0.0 && NormSq(z) < r * r
  }

  /** z raised to a natural power by repeated multiplication. */
  function Pow(z: Complex, n: nat): Complex {
    if n == 0 then Complex(1.0, 0.0) else Mul(Pow(z, n - 1), z)
  }

  lemma MulAssoc(a: Complex, b: Complex, c: Complex)
    ensures Mul(Mul(a, b), c) == Mul(a, Mul(b, c))
  {
  }

  lemma {:induction false} PowAdd(z: Complex, m: nat, n: nat)
    ensures Pow(z, m + n) == Mul(Pow(z, m), Pow(z, n))
    decreases n
  {
    if n == 0 {
      assert Pow(z, m + 0) == Pow(z, m);
    } else {
      calc {
        Pow(z, m + n);
        Mul(Pow(z, m + n - 1), z);
        { PowAdd(z, m, n - 1); }
        Mul(Mul(Pow(z, m), Pow(z, n - 1)), z);
        { MulAssoc(Pow(z, m), Pow(z, n - 1), z); }
        Mul(Pow(z, m), Pow(z, n));
      }
    }
  }
}
