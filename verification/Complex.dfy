/** Complex numbers with exact real parts, and the laws the transforms rest on. */
module Complex {

  datatype Cpx = Cpx(r: real, i: real)

  const ZERO := Cpx(0.0, 0.0)
  const ONE := Cpx(1.0, 0.0)
  const I := Cpx(0.0, 1.0)

  function Add(a: Cpx, b: Cpx): Cpx { Cpx(a.r + b.r, a.i + b.i) }
  function Sub(a: Cpx, b: Cpx): Cpx { Cpx(a.r - b.r, a.i - b.i) }
  function Mul(a: Cpx, b: Cpx): Cpx { Cpx(a.r * b.r - a.i * b.i, a.r * b.i + a.i * b.r) }
  function Conj(a: Cpx): Cpx { Cpx(a.r, -a.i) }
  function Scale(c: real, a: Cpx): Cpx { Cpx(c * a.r, c * a.i) }

  lemma MulComm(a: Cpx, b: Cpx)
    ensures Mul(a, b) == Mul(b, a)
  {}

  lemma MulOne(a: Cpx)
    ensures Mul(a, ONE) == a == Mul(ONE, a)
  {}

  lemma MulAssoc(a: Cpx, b: Cpx, c: Cpx)
    ensures Mul(Mul(a, b), c) == Mul(a, Mul(b, c))
  {}

  lemma MulAdd(a: Cpx, b: Cpx, c: Cpx)
    ensures Mul(a, Add(b, c)) == Add(Mul(a, b), Mul(a, c))
    ensures Mul(Add(b, c), a) == Add(Mul(b, a), Mul(c, a))
  {}

  lemma ConjMul(a: Cpx, b: Cpx)
    ensures Conj(Mul(a, b)) == Mul(Conj(a), Conj(b))
  {}

  lemma RealNoZeroDivisors(x: real, y: real)
    requires x * y == 0.0
    ensures x == 0.0 || y == 0.0
  {
    if x != 0.0 {
      assert y == (x * y) / x;
    }
  }

  lemma SumOfSquares(x: real, y: real)
    requires x * x + y * y == 0.0
    ensures x == 0.0 && y == 0.0
  {
    assert x * x >= 0.0 && y * y >= 0.0;
    RealNoZeroDivisors(x, x);
    RealNoZeroDivisors(y, y);
  }

  function NormSq(a: Cpx): real { a.r * a.r + a.i * a.i }

  lemma NormOne(a: Cpx)
    requires Mul(a, Conj(a)) == ONE
    ensures NormSq(a) == 1.0
  {}

  lemma ConjTimesProduct(a: Cpx, b: Cpx)
    ensures Mul(Conj(a), Mul(a, b)) == Scale(NormSq(a), b)
  {
    MulAssoc(Conj(a), a, b);
  }

  lemma ScaleZero(c: real, a: Cpx)
    requires Scale(c, a) == ZERO
    ensures c == 0.0 || a == ZERO
  {
    RealNoZeroDivisors(c, a.r);
    RealNoZeroDivisors(c, a.i);
  }

  lemma NoZeroDivisors(a: Cpx, b: Cpx)
    requires Mul(a, b) == ZERO
    ensures a == ZERO || b == ZERO
  {
    assert Mul(Conj(a), ZERO) == ZERO;
    hide Mul, NormSq, Scale;
    ConjTimesProduct(a, b);
    ScaleZero(NormSq(a), b);
    if NormSq(a) == 0.0 {
      NormZero(a);
    }
  }

  lemma NormZero(a: Cpx)
    requires NormSq(a) == 0.0
    ensures a == ZERO
  {
    SumOfSquares(a.r, a.i);
  }
}
