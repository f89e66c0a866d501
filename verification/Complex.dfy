/** Complex numbers over exact reals, and the ring facts the transform proofs use. */
module ComplexNumbers {

  datatype Complex = Complex(re: real, im: real)

  const ZERO := Complex(0.0, 0.0)
  const ONE := Complex(1.0, 0.0)
  const I := Complex(0.0, 1.0)

  function Add(x: Complex, y: Complex): Complex {
    Complex(x.re + y.re, x.im + y.im)
  }

  function Sub(x: Complex, y: Complex): Complex {
    Complex(x.re - y.re, x.im - y.im)
  }

  function Neg(x: Complex): Complex {
    Complex(-x.re, -x.im)
  }

  function Mul(x: Complex, y: Complex): Complex {
    Complex(x.re * y.re - x.im * y.im, x.re * y.im + x.im * y.re)
  }

  /** Multiplication by the imaginary unit. */
  function Rotate(x: Complex): Complex {
    Complex(-x.im, x.re)
  }

  function Conj(x: Complex): Complex {
    Complex(x.re, -x.im)
  }

  function Scale(c: real, x: Complex): Complex {
    Complex(c * x.re, c * x.im)
  }

  /** The squared modulus. */
  function Norm2(x: Complex): real {
    x.re * x.re + x.im * x.im
  }

  lemma MulComm(x: Complex, y: Complex)
    ensures Mul(x, y) == Mul(y, x)
  {
  }

  lemma MulAssoc(x: Complex, y: Complex, z: Complex)
    ensures Mul(Mul(x, y), z) == Mul(x, Mul(y, z))
  {
    var (a, b, c, d, e, f) := (x.re, x.im, y.re, y.im, z.re, z.im);
    assert (a * c - b * d) * e == a * (c * e) - b * (d * e);
    assert (a * d + b * c) * f == a * (d * f) + b * (c * f);
    assert (a * c - b * d) * f == a * (c * f) - b * (d * f);
    assert (a * d + b * c) * e == a * (d * e) + b * (c * e);
  }

  lemma MulAdd(x: Complex, y: Complex, z: Complex)
    ensures Mul(x, Add(y, z)) == Add(Mul(x, y), Mul(x, z))
    ensures Mul(Add(y, z), x) == Add(Mul(y, x), Mul(z, x))
  {
  }

  lemma MulSub(x: Complex, y: Complex, z: Complex)
    ensures Mul(x, Sub(y, z)) == Sub(Mul(x, y), Mul(x, z))
  {
  }

  lemma MulNeg(x: Complex, y: Complex)
    ensures Mul(Neg(x), y) == Neg(Mul(x, y))
    ensures Mul(x, Neg(y)) == Neg(Mul(x, y))
  {
  }

  lemma MulOne(x: Complex)
    ensures Mul(ONE, x) == x && Mul(x, ONE) == x
  {
  }

  lemma MulI(x: Complex)
    ensures Mul(I, x) == Rotate(x)
  {
  }

  lemma ConjMul(x: Complex, y: Complex)
    ensures Conj(Mul(x, y)) == Mul(Conj(x), Conj(y))
  {
  }

  /** A number of unit modulus times its conjugate is one. */
  lemma UnitInverse(x: Complex)
    requires Norm2(x) == 1.0
    ensures Mul(x, Conj(x)) == ONE
  {
  }
}
