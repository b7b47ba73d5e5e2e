/** The complex exponential the tables are filled from, measured in whole turns. */
module Circle {
  import opened Arith
  import opened Complex
  import opened Roots

  ghost predicate ExpAdds(cexp: real -> Cpx, s: real, t: real) {
    cexp(s + t) == Mul(cexp(s), cexp(t))
  }

  // cexp(t) is the point of the unit circle t turns from 1: what cos and sin
  // compute of the phase 2*pi*t, with exact reals.
  ghost predicate CircleExp(cexp: real -> Cpx) {
    && (forall s: real, t: real :: ExpAdds(cexp, s, t))
    && (forall t: real :: Mul(cexp(t), Conj(cexp(t))) == ONE)
    && (forall t: real :: cexp(t) == ONE <==> t.Floor as real == t)
    && cexp(0.25) == I
  }

  function Ratio(a: int, n: int): real
    requires n >= 1
  {
    a as real / n as real
  }

  // The phase of twiddle a of n, in turns.
  function Phase(a: int, n: int, inverse: bool): real
    requires n >= 1
  {
    if inverse then Ratio(a, n) else -Ratio(a, n)
  }

  ghost function Turns(cexp: real -> Cpx, n: int, inverse: bool): int -> Cpx
    requires n >= 1
  {
    a => cexp(Phase(a, n, inverse))
  }

  lemma PhaseAdd(a: int, b: int, n: int, inverse: bool)
    requires n >= 1
    ensures Phase(a + b, n, inverse) == Phase(a, n, inverse) + Phase(b, n, inverse)
  {}

  lemma QuotientUnique(x: real, y: real, z: real)
    requires y != 0.0 && z * y == x
    ensures x / y == z
  {}

  lemma DivExact(a: int, n: int, q: int)
    requires n >= 1
    ensures a == n * q <==> a as real / n as real == q as real
  {
    assert (n * q) as real == q as real * n as real;
    if a == n * q {
      QuotientUnique(a as real, n as real, q as real);
    }
  }

  lemma WholeRatio(a: int, n: int)
    requires n >= 1
    ensures Ratio(a, n).Floor as real == Ratio(a, n) <==> a % n == 0
  {
    var x := Ratio(a, n);
    if a % n == 0 {
      var q := a / n;
      assert a == n * q;
      DivExact(a, n, q);
    } else if x.Floor as real == x {
      DivExact(a, n, x.Floor);
      ModUnique(a, n, x.Floor, 0);
    }
  }

  lemma FloorOfWhole(x: real, k: int)
    requires x == k as real
    ensures x.Floor == k
  {}

  lemma WholeNeg(x: real)
    ensures (-x).Floor as real == -x <==> x.Floor as real == x
  {
    var y, k, l := -x, x.Floor, (-x).Floor;
    if k as real == x {
      FloorOfWhole(y, -k);
    }
    if l as real == y {
      FloorOfWhole(x, -l);
    }
  }

  lemma PhaseWhole(a: int, n: int, inverse: bool)
    requires n >= 1
    ensures Phase(a, n, inverse).Floor as real == Phase(a, n, inverse) <==> a % n == 0
  {
    hide Ratio;
    WholeRatio(a, n);
    WholeNeg(Ratio(a, n));
  }

  lemma TurnsIsRoot(cexp: real -> Cpx, n: int, inverse: bool)
    requires CircleExp(cexp) && n >= 1
    ensures IsRoot(Turns(cexp, n, inverse), n)
  {
    hide Mul;
    var w := Turns(cexp, n, inverse);
    forall a: int, b: int ensures Adds(w, a, b) {
      assert ExpAdds(cexp, Phase(a, n, inverse), Phase(b, n, inverse));
      PhaseAdd(a, b, n, inverse);
    }
    forall a: int ensures UnitAt(w, a) && OneAt(w, n, a) {
      PhaseWhole(a, n, inverse);
    }
  }

  lemma AddAt(cexp: real -> Cpx, s: real, t: real, z: real)
    requires CircleExp(cexp) && z == s + t
    ensures cexp(z) == Mul(cexp(s), cexp(t))
  {
    assert ExpAdds(cexp, s, t);
  }

  lemma WholeTurn(cexp: real -> Cpx)
    requires CircleExp(cexp)
    ensures cexp(0.0) == ONE
  {}

  lemma Quarter(cexp: real -> Cpx)
    requires CircleExp(cexp)
    ensures cexp(0.25) == I && cexp(-0.25) == Conj(I)
    ensures cexp(0.5) == Cpx(-1.0, 0.0)
  {
    WholeTurn(cexp);
    assert cexp(0.25) == I;
    hide CircleExp;
    AddAt(cexp, 0.25, -0.25, 0.0);
    AddAt(cexp, 0.25, 0.25, 0.5);
    var b := cexp(-0.25);
    assert Mul(I, b) == Cpx(-b.i, b.r);
  }

  lemma TurnsQuarter(cexp: real -> Cpx, n: int, inverse: bool, q: int)
    requires CircleExp(cexp) && n >= 1 && 4 * q == n
    ensures Turns(cexp, n, inverse)(q) == if inverse then I else Conj(I)
  {
    Quarter(cexp);
    hide CircleExp;
    QuotientUnique(q as real, n as real, 0.25);
  }

  lemma PhaseNeg(a: int, n: int)
    requires n >= 1
    ensures Phase(-a, n, false) == Phase(a, n, true)
  {
    var x := a as real / n as real;
    QuotientUnique((-a) as real, n as real, -x);
  }

  // The inverse table holds the opposite powers.
  lemma TurnsOpposite(cexp: real -> Cpx, n: int, a: int)
    requires n >= 1
    ensures Turns(cexp, n, true)(a) == Turns(cexp, n, false)(-a)
  {
    PhaseNeg(a, n);
  }

  // Every second turn of 2n is a turn of n.
  lemma TurnsHalf(cexp: real -> Cpx, n: int, inverse: bool, a: int)
    requires n >= 1
    ensures Turns(cexp, 2 * n, inverse)(2 * a) == Turns(cexp, n, inverse)(a)
  {
    var x, y := a as real / n as real, (2 * n) as real;
    assert y == 2.0 * n as real && x * n as real == a as real;
    assert x * y == 2.0 * (x * n as real);
    QuotientUnique((2 * a) as real, y, x);
    assert Phase(2 * a, 2 * n, inverse) == Phase(a, n, inverse);
  }
}
