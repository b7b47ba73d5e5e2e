/** The discrete Fourier transform as a sum, and what the fast algorithm uses of it. */
module Fourier {
  import opened Arith
  import opened Complex
  import opened Sums
  import opened Roots

  ghost function DftTerm(x: int -> Cpx, w: int -> Cpx, k: int): int -> Cpx {
    j => Mul(x(j), w(j * k))
  }

  // Bin k of the transform of x(0), ..., x(n-1), where w(a) is the a-th power of the root.
  ghost function Dft(x: int -> Cpx, w: int -> Cpx, n: nat, k: int): Cpx {
    Sum(n, DftTerm(x, w, k))
  }

  lemma DftEq(x: int -> Cpx, y: int -> Cpx, v: int -> Cpx, w: int -> Cpx, n: nat, k: int)
    requires forall j :: 0 <= j < n ==> x(j) == y(j)
    requires forall a: int :: v(a) == w(a)
    ensures Dft(x, v, n, k) == Dft(y, w, n, k)
  {
    hide Mul;
    SumEq(n, DftTerm(x, v, k), DftTerm(y, w, k));
  }

  // A transform of length n has period n in the bin.
  lemma DftPeriod(x: int -> Cpx, w: int -> Cpx, n: nat, k: int, c: int)
    requires IsRoot(w, n)
    ensures Dft(x, w, n, k + n * c) == Dft(x, w, n, k)
  {
    hide Mul;
    forall j | 0 <= j < n
      ensures DftTerm(x, w, k + n * c)(j) == DftTerm(x, w, k)(j)
    {
      assert j * (k + n * c) == j * k + n * (j * c);
      RootPeriod(w, n, j * k, j * c);
    }
    SumEq(n, DftTerm(x, w, k + n * c), DftTerm(x, w, k));
  }

  // One recombination: p transforms of length m, bin k taken from each and twisted.
  ghost function StageTerm(x: int -> Cpx, w: int -> Cpx, p: int, m: nat, k: int): int -> Cpx {
    q => Mul(Dft(Decimate(x, p, q), Every(w, p), m, k), w(q * k))
  }

  lemma IndexProduct(i: int, p: int, q: int, k: int)
    ensures (i * p + q) * k == p * (i * k) + q * k
  {}

  lemma DecimatedTerm(x: int -> Cpx, w: int -> Cpx, n: int, p: int, k: int, q: int, i: int)
    requires IsRoot(w, n)
    ensures Decimate(DftTerm(x, w, k), p, q)(i)
         == Mul(w(q * k), DftTerm(Decimate(x, p, q), Every(w, p), k)(i))
  {
    hide Mul, IsRoot;
    IndexProduct(i, p, q, k);
    var a, b, y := w(p * (i * k)), w(q * k), x(i * p + q);
    RootAdd(w, n, p * (i * k), q * k);
    MulAssoc(y, a, b);
    MulComm(Mul(y, a), b);
  }

  lemma ResidueIsStage(x: int -> Cpx, w: int -> Cpx, p: nat, m: nat, n: nat, k: int, q: int)
    requires IsRoot(w, n)
    ensures ResidueSums(DftTerm(x, w, k), p, m)(q) == StageTerm(x, w, p, m, k)(q)
  {
    hide Mul, IsRoot, DftTerm;
    var g, h := DftTerm(x, w, k), DftTerm(Decimate(x, p, q), Every(w, p), k);
    forall i | 0 <= i < m ensures Decimate(g, p, q)(i) == Mul(w(q * k), h(i)) {
      DecimatedTerm(x, w, n, p, k, q, i);
    }
    SumOfMul(m, w(q * k), h, Decimate(g, p, q));
    MulComm(w(q * k), Sum(m, h));
  }

  // Decimation in time: a transform of length p*m from p transforms of length m.
  lemma Decimation(x: int -> Cpx, w: int -> Cpx, p: nat, m: nat, n: nat, k: int)
    requires n == p * m && IsRoot(w, n)
    ensures Dft(x, w, n, k) == Sum(p, StageTerm(x, w, p, m, k))
  {
    hide Mul, IsRoot, DftTerm, StageTerm, ResidueSums;
    var g := DftTerm(x, w, k);
    SumByResidue(p, m, g);
    assert Times(m, p) == n;
    forall q | 0 <= q < p
      ensures ResidueSums(g, p, m)(q) == StageTerm(x, w, p, m, k)(q)
    {
      ResidueIsStage(x, w, p, m, n, k, q);
    }
    SumEq(p, ResidueSums(g, p, m), StageTerm(x, w, p, m, k));
  }

  // ----- inversion

  // Orthogonality: the powers of one root sum to n or to nothing.
  lemma Orthogonality(w: int -> Cpx, n: nat, d: int, g: int -> Cpx)
    requires IsRoot(w, n)
    requires forall k :: 0 <= k < n ==> g(k) == w(d * k)
    ensures d % n == 0 ==> Sum(n, g) == Cpx(n as real, 0.0)
    ensures d % n != 0 ==> Sum(n, g) == ZERO
  {
    hide Mul;
    if d % n == 0 {
      forall k | 0 <= k < n ensures g(k) == ONE {
        assert d == n * (d / n);
        assert d * k == n * ((d / n) * k);
        RootMultiple(w, n, (d / n) * k);
      }
      SumOfOnes(n, g);
    } else {
      var s := Sum(n, g);
      GeometricSum(w, n, d, n, g);
      assert n * d == d * n;
      RootMultiple(w, n, d);
      RootOne(w, n, d);
      // s * w(d) + 1 == s + w(n * d) == s + 1
      assert Add(Mul(w(d), s), ONE) == Add(s, ONE);
      FixedPoint(w(d), s);
    }
  }

  lemma FixedPoint(a: Cpx, s: Cpx)
    requires Add(Mul(a, s), ONE) == Add(s, ONE)
    requires a != ONE
    ensures s == ZERO
  {
    var b := Sub(a, ONE);
    assert Mul(b, s) == Sub(Mul(a, s), s);
    NoZeroDivisors(b, s);
  }

  lemma {:induction false} GeometricSum(w: int -> Cpx, n: int, d: int, t: nat, g: int -> Cpx)
    requires IsRoot(w, n)
    requires forall k :: 0 <= k < t ==> g(k) == w(d * k)
    ensures Add(Mul(w(d), Sum(t, g)), ONE) == Add(Sum(t, g), w(d * t))
  {
    assert Mul(w(d), ZERO) == ZERO;
    hide Mul;
    if t == 0 {
      RootZero(w, n);
    } else {
      GeometricSum(w, n, d, t - 1, g);
      assert d + d * (t - 1) == d * t;
      RootAdd(w, n, d, d * (t - 1));
      MulAdd(w(d), Sum(t - 1, g), g(t - 1));
    }
  }

  ghost function Opposite(w: int -> Cpx): int -> Cpx {
    a => w(-a)
  }

  // What input i contributes to output j by way of bin k.
  ghost function Contribution(x: int -> Cpx, w: int -> Cpx, j: int): (int, int) -> Cpx {
    (k, i) => Mul(Mul(x(i), w(i * k)), w(-(k * j)))
  }

  lemma ContributionAt(x: int -> Cpx, w: int -> Cpx, n: int, j: int, k: int, i: int)
    requires IsRoot(w, n)
    ensures Contribution(x, w, j)(k, i) == Mul(x(i), w((i - j) * k))
    ensures Contribution(x, w, j)(k, i) == Mul(w(-(k * j)), DftTerm(x, w, k)(i))
  {
    hide Mul, IsRoot;
    assert i * k + -(k * j) == (i - j) * k;
    RootAdd(w, n, i * k, -(k * j));
    MulAssoc(x(i), w(i * k), w(-(k * j)));
    MulComm(Mul(x(i), w(i * k)), w(-(k * j)));
  }

  lemma SmallDifference(n: int, i: int, j: int)
    requires 0 <= i < n && 0 <= j < n
    ensures (i - j) % n == 0 <==> i == j
  {
    if i >= j { ModUnique(i - j, n, 0, i - j); } else { ModUnique(i - j, n, -1, i - j + n); }
  }

  lemma MulReal(a: Cpx, c: real)
    ensures Mul(a, Cpx(c, 0.0)) == Scale(c, a)
    ensures Mul(a, ZERO) == ZERO
  {}

  lemma ColumnSum(x: int -> Cpx, w: int -> Cpx, n: nat, j: int, i: int, g: int -> Cpx)
    requires IsRoot(w, n) && 0 <= i < n && 0 <= j < n
    requires forall k :: 0 <= k < n ==> g(k) == Contribution(x, w, j)(k, i)
    ensures Sum(n, g) == if i == j then Scale(n as real, x(i)) else ZERO
  {
    hide Mul, IsRoot, Scale, Contribution;
    var h := (k: int) => w((i - j) * k);
    forall k | 0 <= k < n ensures g(k) == Mul(x(i), h(k)) {
      ContributionAt(x, w, n, j, k, i);
    }
    SumOfMul(n, x(i), h, g);
    Orthogonality(w, n, i - j, h);
    SmallDifference(n, i, j);
    MulReal(x(i), n as real);
  }

  lemma RowSum(x: int -> Cpx, w: int -> Cpx, n: nat, j: int, k: int, g: int -> Cpx)
    requires IsRoot(w, n)
    requires forall i :: 0 <= i < n ==> g(i) == Contribution(x, w, j)(k, i)
    ensures Sum(n, g) == Mul(Dft(x, w, n, k), w(-(k * j)))
  {
    hide Mul, IsRoot, Contribution, DftTerm;
    forall i | 0 <= i < n ensures g(i) == Mul(w(-(k * j)), DftTerm(x, w, k)(i)) {
      ContributionAt(x, w, n, j, k, i);
    }
    SumOfMul(n, w(-(k * j)), DftTerm(x, w, k), g);
    MulComm(w(-(k * j)), Dft(x, w, n, k));
  }

  // Transforming with the root and then with its inverse multiplies by the length.
  lemma Inversion(x: int -> Cpx, y: int -> Cpx, w: int -> Cpx, n: nat, j: int)
    requires IsRoot(w, n) && 0 <= j < n
    requires forall k :: 0 <= k < n ==> y(k) == Dft(x, w, n, k)
    ensures Dft(y, Opposite(w), n, j) == Scale(n as real, x(j))
  {
    hide Mul, Scale, IsRoot, Contribution;
    var g := Contribution(x, w, j);
    SumSwap(n, n, g);
    var rows, columns := (a: int) => Sum(n, b => g(a, b)), (b: int) => Sum(n, a => g(a, b));
    forall k | 0 <= k < n ensures DftTerm(y, Opposite(w), j)(k) == rows(k) {
      RowSum(x, w, n, j, k, b => g(k, b));
    }
    SumEq(n, DftTerm(y, Opposite(w), j), rows);
    forall i | 0 <= i < n
      ensures columns(i) == if i == j then Scale(n as real, x(i)) else ZERO
    {
      ColumnSum(x, w, n, j, i, a => g(a, i));
    }
    SumSingle(n, j, columns);
  }
}
