/** Powers of a primitive root of unity, as the twiddle tables hold them. */
module Roots {
  import opened Arith
  import opened Complex

  // The laws of w one exponent at a time; names to instantiate them by.
  ghost predicate Adds(w: int -> Cpx, a: int, b: int) {
    w(a + b) == Mul(w(a), w(b))
  }

  ghost predicate UnitAt(w: int -> Cpx, a: int) {
    Mul(w(a), Conj(w(a))) == ONE
  }

  ghost predicate OneAt(w: int -> Cpx, n: int, a: int)
    requires n >= 1
  {
    w(a) == ONE <==> a % n == 0
  }

  // w maps each exponent to that power of one primitive n-th root of unity.
  ghost predicate IsRoot(w: int -> Cpx, n: int) {
    && n >= 1
    && (forall a: int, b: int :: Adds(w, a, b))
    && (forall a: int :: UnitAt(w, a))
    && (forall a: int :: OneAt(w, n, a))
  }

  // The powers of the s-th power of the root.
  ghost function Every(w: int -> Cpx, s: int): int -> Cpx {
    a => w(s * a)
  }

  lemma ScaledMod(s: int, n: int, a: int)
    requires s >= 1 && n >= 1 && s * n >= 1
    ensures (s * a) % (s * n) == 0 <==> a % n == 0
  {
    var q, r := a / n, a % n;
    assert s * a == (s * n) * q + s * r by {
      assert a == n * q + r;
      assert s * (n * q) == (s * n) * q;
    }
    assert 0 <= s * r < s * n;
    ModUnique(s * a, s * n, q, s * r);
  }

  lemma EveryIsRoot(w: int -> Cpx, s: int, n: int)
    requires s >= 1 && n >= 1 && s * n >= 1 && IsRoot(w, s * n)
    ensures IsRoot(Every(w, s), n)
  {
    var v := Every(w, s);
    forall a: int, b: int ensures Adds(v, a, b) {
      assert Adds(w, s * a, s * b);
      assert s * (a + b) == s * a + s * b;
    }
    forall a: int ensures UnitAt(v, a) {
      assert UnitAt(w, s * a);
    }
    forall a: int ensures OneAt(v, n, a) {
      assert OneAt(w, s * n, s * a);
      ScaledMod(s, n, a);
    }
  }

  lemma RootAdd(w: int -> Cpx, n: int, a: int, b: int)
    requires IsRoot(w, n)
    ensures w(a + b) == Mul(w(a), w(b))
  {
    assert Adds(w, a, b);
  }

  lemma RootZero(w: int -> Cpx, n: int)
    requires IsRoot(w, n)
    ensures w(0) == ONE
  {
    assert OneAt(w, n, 0);
  }

  lemma RootMultiple(w: int -> Cpx, n: int, c: int)
    requires IsRoot(w, n)
    ensures w(n * c) == ONE
  {
    assert OneAt(w, n, n * c);
    ModUnique(n * c, n, c, 0);
  }

  // Exponents count modulo the order.
  lemma RootPeriod(w: int -> Cpx, n: int, a: int, c: int)
    requires IsRoot(w, n)
    ensures w(a + n * c) == w(a)
  {
    hide Mul, IsRoot;
    RootMultiple(w, n, c);
    RootAdd(w, n, a, n * c);
    MulOne(w(a));
  }

  lemma RootMod(w: int -> Cpx, n: int, a: int)
    requires IsRoot(w, n)
    ensures w(a % n) == w(a)
  {
    hide Mul;
    RootPeriod(w, n, a % n, a / n);
    assert a % n + n * (a / n) == a;
  }

  lemma RootNorm(w: int -> Cpx, n: int, a: int)
    requires IsRoot(w, n)
    ensures Mul(w(a), Conj(w(a))) == ONE
  {
    assert UnitAt(w, a);
  }

  lemma RootOne(w: int -> Cpx, n: int, a: int)
    requires IsRoot(w, n)
    ensures w(a) == ONE <==> a % n == 0
  {
    assert OneAt(w, n, a);
  }

  // The opposite exponent gives the conjugate power.
  lemma RootNeg(w: int -> Cpx, n: int, a: int)
    requires IsRoot(w, n)
    ensures w(-a) == Conj(w(a))
  {
    hide Mul, IsRoot, Conj;
    RootAdd(w, n, a, -a);
    assert a + -a == 0;
    RootZero(w, n);
    RootNorm(w, n, a);
    InverseUnique(w(a), w(-a), Conj(w(a)));
  }

  lemma InverseUnique(a: Cpx, b: Cpx, c: Cpx)
    requires Mul(a, b) == ONE && Mul(a, c) == ONE
    ensures b == c
  {
    hide Mul;
    MulComm(a, b);
    MulAssoc(b, a, c);
    MulOne(b);
    MulOne(c);
  }

  lemma HalfTurnOf(w2: int -> Cpx, n: nat)
    requires n >= 1 && IsRoot(w2, 2 * n)
    ensures w2(n) == Cpx(-1.0, 0.0)
  {
    hide Mul;
    RootAdd(w2, 2 * n, n, n);
    RootMultiple(w2, 2 * n, 1);
    RootOne(w2, 2 * n, n);
    SquareRootOfOne(w2(n));
  }

  lemma SquareRootOfOne(a: Cpx)
    requires Mul(a, a) == ONE && a != ONE
    ensures a == Cpx(-1.0, 0.0)
  {
    assert Mul(Sub(a, ONE), Add(a, ONE)) == ZERO;
    NoZeroDivisors(Sub(a, ONE), Add(a, ONE));
  }
}
