/** One recombination stage: its specification, and the closed forms at radix 2, 3, 4 and 5. */
module Butterflies {
  import opened Arith
  import opened Complex
  import opened Sums
  import opened Roots
  import opened Fourier

  ghost function At(s: seq<Cpx>, i: int): Cpx {
    if 0 <= i < |s| then s[i] else ZERO
  }

  // The samples of s at o, o+step, o+2*step, ...
  ghost function Strided(s: seq<Cpx>, o: int, step: int): int -> Cpx {
    i => At(s, o + i * step)
  }

  // What the stage adds to output k from sub-transform q, whose bins start at q*m.
  ghost function BflyTerm(x: int -> Cpx, v: int -> Cpx, m: int, k: int): int -> Cpx
    requires m >= 1
  {
    q => Mul(x(k % m + q * m), v(q * k))
  }

  ghost function Butterfly(x: int -> Cpx, v: int -> Cpx, p: nat, m: int, k: int): Cpx
    requires m >= 1
  {
    Sum(p, BflyTerm(x, v, m, k))
  }

  // b is a with the p*m cells from o on recombined, and every other cell as it was.
  ghost predicate Recombined(a: seq<Cpx>, b: seq<Cpx>, o: nat, v: int -> Cpx, p: nat, m: int)
    requires m >= 1
  {
    && |a| == |b|
    && forall i :: 0 <= i < |a| ==>
         b[i] == if o <= i < o + p * m then Butterfly(Strided(a, o, 1), v, p, m, i - o) else a[i]
  }

  // The same while the stage is under way: the columns before u are recombined,
  // and so are the first q cells of column u.
  ghost predicate Underway(a: seq<Cpx>, b: seq<Cpx>, o: nat, v: int -> Cpx, p: nat, m: int, u: int, q: int)
    requires m >= 1
  {
    && |a| == |b|
    && forall i :: 0 <= i < |a| ==>
         b[i] == if o <= i < o + p * m && Reached(i, o, m, u, q)
                 then Butterfly(Strided(a, o, 1), v, p, m, i - o) else a[i]
  }

  ghost predicate Reached(i: int, o: nat, m: int, u: int, q: int)
    requires m >= 1
  {
    (i - o) % m < u || ((i - o) % m == u && (i - o) / m < q)
  }

  lemma StageStart(a: seq<Cpx>, o: nat, v: int -> Cpx, p: nat, m: int)
    requires m >= 1
    ensures Underway(a, a, o, v, p, m, 0, 0)
  {
    forall i | o <= i < o + p * m ensures !Reached(i, o, m, 0, 0) {
      assert (i - o) / m >= 0;
    }
  }

  lemma CellInside(p: nat, m: int, u: int, q: int)
    requires m >= 1 && 0 <= u < m && 0 <= q < p
    ensures 0 <= u + q * m < p * m
    ensures (u + q * m) % m == u && (u + q * m) / m == q
  {
    assert q * m + m == (q + 1) * m;
    MulMono(m, q + 1, p);
    ModUnique(u + q * m, m, q, u);
  }

  // Writing the next output of column u.
  lemma StageWrite(a: seq<Cpx>, b: seq<Cpx>, o: nat, v: int -> Cpx, p: nat, m: int, u: int, q: int)
    requires m >= 1 && 0 <= u < m && 0 <= q < p && o + p * m <= |a|
    requires Underway(a, b, o, v, p, m, u, q)
    ensures 0 <= o + u + q * m < |b|
    ensures Underway(a, b[o + u + q * m := Butterfly(Strided(a, o, 1), v, p, m, u + q * m)], o, v, p, m, u, q + 1)
  {
    hide Butterfly;
    CellInside(p, m, u, q);
    var c := o + u + q * m;
    forall i | o <= i < o + p * m && i != c
      ensures Reached(i, o, m, u, q + 1) == Reached(i, o, m, u, q)
    {
      assert i - o == m * ((i - o) / m) + (i - o) % m;
    }
  }

  lemma StageColumn(a: seq<Cpx>, b: seq<Cpx>, o: nat, v: int -> Cpx, p: nat, m: int, u: int)
    requires m >= 1 && 0 <= u < m
    requires Underway(a, b, o, v, p, m, u, p)
    ensures Underway(a, b, o, v, p, m, u + 1, 0)
  {
    hide Butterfly;
    forall i | o <= i < o + p * m
      ensures Reached(i, o, m, u + 1, 0) == Reached(i, o, m, u, p)
    {
      ColumnHeight(i - o, m, p);
    }
  }

  // Cell q of column u holds its output.
  ghost predicate CellDone(a: seq<Cpx>, c: seq<Cpx>, o: nat, v: int -> Cpx, p: nat, m: int, u: int, q: int)
    requires m >= 1
  {
    && 0 <= o + u + q * m < |c|
    && c[o + u + q * m] == Butterfly(Strided(a, o, 1), v, p, m, u + q * m)
  }

  lemma CellIs(a: seq<Cpx>, c: seq<Cpx>, o: nat, v: int -> Cpx, p: nat, m: int, u: int, q: int)
    requires m >= 1 && 0 <= u < m && 0 <= q < p && o + p * m <= |c|
    ensures 0 <= o + u + q * m < |c|
    ensures c[o + u + q * m] == Butterfly(Strided(a, o, 1), v, p, m, u + q * m) <==> CellDone(a, c, o, v, p, m, u, q)
  {
    CellInside(p, m, u, q);
  }

  // Writing all p outputs of column u, in whatever order.
  lemma ColumnWrites(a: seq<Cpx>, b: seq<Cpx>, c: seq<Cpx>, o: nat, v: int -> Cpx, p: nat, m: int, u: int)
    requires m >= 1 && 0 <= u < m && o + p * m <= |a| && |c| == |b|
    requires Underway(a, b, o, v, p, m, u, 0)
    requires forall q :: 0 <= q < p ==> CellDone(a, c, o, v, p, m, u, q)
    requires forall i :: 0 <= i < |b| && !(o <= i < o + p * m && (i - o) % m == u) ==> c[i] == b[i]
    ensures Underway(a, c, o, v, p, m, u + 1, 0)
  {
    hide Butterfly;
    forall i | o <= i < o + p * m && (i - o) % m == u
      ensures c[i] == Butterfly(Strided(a, o, 1), v, p, m, i - o) && Reached(i, o, m, u + 1, 0)
    {
      var q := (i - o) / m;
      ColumnHeight(i - o, m, p);
      assert i - o == u + q * m;
      assert CellDone(a, c, o, v, p, m, u, q);
    }
    forall i | o <= i < o + p * m && (i - o) % m != u
      ensures Reached(i, o, m, u + 1, 0) == Reached(i, o, m, u, 0)
    {
      ColumnHeight(i - o, m, p);
    }
  }

  lemma ColumnHeight(k: int, m: int, p: nat)
    requires m >= 1 && 0 <= k < p * m
    ensures 0 <= k / m < p
  {
    assert k == m * (k / m) + k % m;
    MulMono(m, p, k / m);
  }

  lemma StageEnd(a: seq<Cpx>, b: seq<Cpx>, o: nat, v: int -> Cpx, p: nat, m: int)
    requires m >= 1
    requires Underway(a, b, o, v, p, m, m, 0)
    ensures Recombined(a, b, o, v, p, m)
  {
    hide Butterfly;
    forall i | o <= i < o + p * m ensures Reached(i, o, m, m, 0) {}
  }

  // A cell not reached yet still holds the stage's input.
  lemma StageRead(a: seq<Cpx>, b: seq<Cpx>, o: nat, v: int -> Cpx, p: nat, m: int, u: int, q: int, r: int)
    requires m >= 1 && 0 <= u < m && 0 <= q <= r < p && o + p * m <= |a|
    requires Underway(a, b, o, v, p, m, u, q)
    ensures 0 <= o + u + r * m < |b|
    ensures b[o + u + r * m] == a[o + u + r * m] == Strided(a, o, 1)(u + r * m)
  {
    hide Butterfly;
    CellInside(p, m, u, r);
  }

  // If each sub-transform is in place, recombining gives the whole transform.
  lemma StageIsDft(y: int -> Cpx, x: int -> Cpx, v: int -> Cpx, p: nat, m: nat, n: nat, k: int)
    requires m >= 1 && n == p * m && IsRoot(v, n) && IsRoot(Every(v, p), m)
    requires forall q, u :: 0 <= q < p && 0 <= u < m ==>
               y(u + q * m) == Dft(Decimate(x, p, q), Every(v, p), m, u)
    ensures Butterfly(y, v, p, m, k) == Dft(x, v, n, k)
  {
    hide Mul, IsRoot, Dft;
    Decimation(x, v, p, m, n, k);
    var u := k % m;
    forall q | 0 <= q < p ensures BflyTerm(y, v, m, k)(q) == StageTerm(x, v, p, m, k)(q) {
      assert k == u + m * (k / m);
      DftPeriod(Decimate(x, p, q), Every(v, p), m, u, k / m);
    }
    SumEq(p, BflyTerm(y, v, m, k), StageTerm(x, v, p, m, k));
  }

  // ----- outputs u, u+m, ..., u+(p-1)m in terms of the p twisted inputs

  ghost function Twisted(x: int -> Cpx, v: int -> Cpx, m: int, u: int, q: int): Cpx {
    Mul(x(u + q * m), v(q * u))
  }

  lemma TwistedDef(x: int -> Cpx, v: int -> Cpx, m: int, u: int, q: int)
    ensures Twisted(x, v, m, u, q) == Mul(x(u + q * m), v(q * u))
  {}

  lemma OutputTerm(x: int -> Cpx, v: int -> Cpx, n: int, m: int, u: int, q1: int, q: int)
    requires m >= 1 && IsRoot(v, n) && 0 <= u < m
    ensures BflyTerm(x, v, m, u + q1 * m)(q) == Mul(Twisted(x, v, m, u, q), v(m * (q * q1)))
  {
    hide Mul, IsRoot;
    ModUnique(u + q1 * m, m, q1, u);
    assert q * (u + q1 * m) == q * u + m * (q * q1);
    RootAdd(v, n, q * u, m * (q * q1));
    MulAssoc(x(u + q * m), v(q * u), v(m * (q * q1)));
  }

  // The powers of the root of order p that a stage of radix p rotates by.
  ghost function Rotation(v: int -> Cpx, m: int, e: int): Cpx {
    v(m * e)
  }

  lemma RotationMod(v: int -> Cpx, p: int, m: int, e: int, r: int, c: int)
    requires p >= 1 && m >= 1 && m * p >= 1 && IsRoot(v, m * p) && e == r + p * c
    ensures Rotation(v, m, e) == Rotation(v, m, r)
  {
    assert m * e == m * r + (m * p) * c;
    RootPeriod(v, m * p, m * r, c);
  }

  lemma RotationNeg(v: int -> Cpx, p: int, m: int, e: int)
    requires p >= 1 && m >= 1 && m * p >= 1 && IsRoot(v, m * p)
    ensures Rotation(v, m, p - e) == Conj(Rotation(v, m, e))
  {
    RotationMod(v, p, m, p - e, -e, 1);
    assert m * -e == -(m * e);
    RootNeg(v, m * p, m * e);
  }

  lemma SumOf2(g: int -> Cpx)
    ensures Sum(2, g) == Add(g(0), g(1))
  {
    assert Sum(1, g) == g(0);
  }

  lemma SumOf3(g: int -> Cpx)
    ensures Sum(3, g) == Add(Add(g(0), g(1)), g(2))
  {
    SumOf2(g);
  }

  lemma SumOf4(g: int -> Cpx)
    ensures Sum(4, g) == Add(Add(Add(g(0), g(1)), g(2)), g(3))
  {
    SumOf3(g);
  }

  lemma SumOf5(g: int -> Cpx)
    ensures Sum(5, g) == Add(Add(Add(Add(g(0), g(1)), g(2)), g(3)), g(4))
  {
    SumOf4(g);
  }

  ghost function Rotated(x: int -> Cpx, v: int -> Cpx, m: int, u: int, q1: int): int -> Cpx {
    q => Mul(Twisted(x, v, m, u, q), Rotation(v, m, q * q1))
  }

  lemma OutputSum(x: int -> Cpx, v: int -> Cpx, p: nat, m: int, u: int, q1: int)
    requires m >= 1 && m * p >= 1 && IsRoot(v, m * p) && 0 <= u < m
    ensures Butterfly(x, v, p, m, u + q1 * m) == Sum(p, Rotated(x, v, m, u, q1))
  {
    hide Mul, IsRoot, BflyTerm;
    var k := u + q1 * m;
    forall q | 0 <= q < p ensures BflyTerm(x, v, m, k)(q) == Rotated(x, v, m, u, q1)(q) {
      OutputTerm(x, v, m * p, m, u, q1, q);
    }
    SumEq(p, BflyTerm(x, v, m, k), Rotated(x, v, m, u, q1));
  }

  lemma Untwisted(x: int -> Cpx, v: int -> Cpx, n: int, m: int, u: int)
    requires IsRoot(v, n)
    ensures Twisted(x, v, m, u, 0) == x(u)
    ensures Rotation(v, m, 0) == ONE
  {
    hide Mul;
    RootZero(v, n);
    MulOne(x(u));
  }

  lemma RotationAdd(v: int -> Cpx, p: int, m: int, a: int, b: int)
    requires p >= 1 && m >= 1 && m * p >= 1 && IsRoot(v, m * p)
    ensures Rotation(v, m, a + b) == Mul(Rotation(v, m, a), Rotation(v, m, b))
  {
    hide Mul;
    assert m * (a + b) == m * a + m * b;
    RootAdd(v, m * p, m * a, m * b);
  }

  lemma RotationNotOne(v: int -> Cpx, p: int, m: int)
    requires p >= 2 && m >= 1 && IsRoot(v, m * p)
    ensures v(m) != ONE && NormSq(v(m)) == 1.0
  {
    RootNorm(v, m * p, m);
    NormOne(v(m));
    hide Mul;
    assert m * p >= m * 2;
    ModUnique(m, m * p, 0, m);
    RootOne(v, m * p, m);
  }

  // The products a stage adds up, when the rotations are known.
  lemma Products(t: Cpx)
    ensures Mul(t, ONE) == t && Mul(t, Cpx(-1.0, 0.0)) == Sub(ZERO, t)
  {}

  // ----- radix 2

  lemma HalfTurn(v: int -> Cpx, m: int)
    requires m >= 1 && IsRoot(v, m * 2)
    ensures Rotation(v, m, 1) == Cpx(-1.0, 0.0)
  {
    HalfTurnOf(v, m);
  }

  lemma Radix2(x: int -> Cpx, v: int -> Cpx, m: int, u: int)
    requires m >= 1 && IsRoot(v, m * 2) && 0 <= u < m
    ensures var t := Twisted(x, v, m, u, 1);
            && Butterfly(x, v, 2, m, u) == Add(x(u), t)
            && Butterfly(x, v, 2, m, u + m) == Sub(x(u), t)
  {
    hide Butterfly, Twisted, Rotation, Mul;
    OutputSum(x, v, 2, m, u, 0);
    OutputSum(x, v, 2, m, u, 1);
    assert u + 0 * m == u && u + 1 * m == u + m;
    Untwisted(x, v, m * 2, m, u);
    HalfTurn(v, m);
    Products(x(u));
    Products(Twisted(x, v, m, u, 1));
    SumOf2(Rotated(x, v, m, u, 0));
    SumOf2(Rotated(x, v, m, u, 1));
  }

  // ----- radix 3

  lemma CubeRootOfOne(a: Cpx)
    requires Mul(a, a) == Conj(a) && a != ONE && NormSq(a) == 1.0
    ensures a.r == -0.5
  {
    RealNoZeroDivisors(a.i, 2.0 * a.r + 1.0);
    if a.i == 0.0 {
      RealNoZeroDivisors(a.r, a.r - 1.0);
    }
  }

  lemma ThirdTurn(v: int -> Cpx, m: int)
    requires m >= 1 && IsRoot(v, m * 3)
    ensures var a := v(m);
            && Rotation(v, m, 1) == Rotation(v, m, 4) == a
            && Rotation(v, m, 2) == Conj(a)
            && a.r == -0.5
  {
    hide Mul, NormSq, Conj;
    assert Rotation(v, m, 1) == v(m);
    RotationAdd(v, 3, m, 1, 1);
    RotationNeg(v, 3, m, 1);
    RotationMod(v, 3, m, 4, 1, 1);
    RotationNotOne(v, 3, m);
    CubeRootOfOne(v(m));
  }

  lemma Radix3(x: int -> Cpx, v: int -> Cpx, m: int, u: int)
    requires m >= 1 && IsRoot(v, m * 3) && 0 <= u < m
    ensures var t1, t2, a := Twisted(x, v, m, u, 1), Twisted(x, v, m, u, 2), v(m);
            && Butterfly(x, v, 3, m, u) == Add(Add(x(u), t1), t2)
            && Butterfly(x, v, 3, m, u + m) == Add(Add(x(u), Mul(t1, a)), Mul(t2, Conj(a)))
            && Butterfly(x, v, 3, m, u + 2 * m) == Add(Add(x(u), Mul(t1, Conj(a))), Mul(t2, a))
            && a.r == -0.5
  {
    hide Butterfly, Twisted, Rotation, Mul, Add, Conj;
    OutputSum(x, v, 3, m, u, 0);
    OutputSum(x, v, 3, m, u, 1);
    OutputSum(x, v, 3, m, u, 2);
    assert u + 0 * m == u && u + 1 * m == u + m;
    Untwisted(x, v, m * 3, m, u);
    ThirdTurn(v, m);
    Products(x(u));
    Products(Twisted(x, v, m, u, 1));
    Products(Twisted(x, v, m, u, 2));
    SumOf3(Rotated(x, v, m, u, 0));
    SumOf3(Rotated(x, v, m, u, 1));
    SumOf3(Rotated(x, v, m, u, 2));
  }

  // ----- radix 4, where the quarter turn b is I or its conjugate

  lemma SquareOfQuarter(b: Cpx)
    requires b == I || b == Conj(I)
    ensures Mul(b, b) == Cpx(-1.0, 0.0)
  {}

  lemma QuarterTurn(v: int -> Cpx, m: int)
    requires m >= 1 && IsRoot(v, m * 4) && (v(m) == I || v(m) == Conj(I))
    ensures var b := v(m);
            && Rotation(v, m, 1) == Rotation(v, m, 9) == b
            && Rotation(v, m, 3) == Conj(b)
            && Rotation(v, m, 2) == Rotation(v, m, 6) == Cpx(-1.0, 0.0)
            && Rotation(v, m, 4) == ONE
  {
    hide Mul, Conj;
    SquareOfQuarter(v(m));
    RootZero(v, m * 4);
    assert Rotation(v, m, 1) == v(m);
    RotationAdd(v, 4, m, 1, 1);
    RotationNeg(v, 4, m, 1);
    RotationMod(v, 4, m, 4, 0, 1);
    RotationMod(v, 4, m, 6, 2, 1);
    RotationMod(v, 4, m, 9, 1, 2);
  }

  ghost function Sum4(a: Cpx, b: Cpx, c: Cpx, d: Cpx): Cpx {
    Add(Add(Add(a, b), c), d)
  }

  ghost function Neg(a: Cpx): Cpx { Sub(ZERO, a) }

  lemma Radix4(x: int -> Cpx, v: int -> Cpx, m: int, u: int)
    requires m >= 1 && IsRoot(v, m * 4) && 0 <= u < m && (v(m) == I || v(m) == Conj(I))
    ensures var t1, t2, t3, b := Twisted(x, v, m, u, 1), Twisted(x, v, m, u, 2), Twisted(x, v, m, u, 3), v(m);
            && Butterfly(x, v, 4, m, u) == Sum4(x(u), t1, t2, t3)
            && Butterfly(x, v, 4, m, u + m) == Sum4(x(u), Mul(t1, b), Neg(t2), Mul(t3, Conj(b)))
            && Butterfly(x, v, 4, m, u + 2 * m) == Sum4(x(u), Neg(t1), t2, Neg(t3))
            && Butterfly(x, v, 4, m, u + 3 * m) == Sum4(x(u), Mul(t1, Conj(b)), Neg(t2), Mul(t3, b))
  {
    hide Butterfly, Twisted, Rotation, Mul, Add, Sub, Conj;
    QuarterTurn(v, m);
    OutputSum(x, v, 4, m, u, 0);
    OutputSum(x, v, 4, m, u, 1);
    OutputSum(x, v, 4, m, u, 2);
    OutputSum(x, v, 4, m, u, 3);
    assert u + 0 * m == u && u + 1 * m == u + m;
    Untwisted(x, v, m * 4, m, u);
    Products(x(u));
    Products(Twisted(x, v, m, u, 1));
    Products(Twisted(x, v, m, u, 2));
    Products(Twisted(x, v, m, u, 3));
    SumOf4(Rotated(x, v, m, u, 0));
    SumOf4(Rotated(x, v, m, u, 1));
    SumOf4(Rotated(x, v, m, u, 2));
    SumOf4(Rotated(x, v, m, u, 3));
  }

  // ----- radix 5

  lemma FifthTurn(v: int -> Cpx, m: int)
    requires m >= 1 && IsRoot(v, m * 5)
    ensures var ya, yb := v(m), v(2 * m);
            && Rotation(v, m, 1) == Rotation(v, m, 6) == Rotation(v, m, 16) == ya
            && Rotation(v, m, 2) == Rotation(v, m, 12) == yb
            && Rotation(v, m, 3) == Rotation(v, m, 8) == Conj(yb)
            && Rotation(v, m, 4) == Rotation(v, m, 9) == Conj(ya)
  {
    hide Conj;
    RotationNeg(v, 5, m, 1);
    RotationNeg(v, 5, m, 2);
    RotationMod(v, 5, m, 6, 1, 1);
    RotationMod(v, 5, m, 16, 1, 3);
    RotationMod(v, 5, m, 12, 2, 2);
    RotationMod(v, 5, m, 8, 3, 1);
    RotationMod(v, 5, m, 9, 4, 1);
  }

  ghost function Sum5(a: Cpx, b: Cpx, c: Cpx, d: Cpx, e: Cpx): Cpx {
    Add(Add(Add(Add(a, b), c), d), e)
  }

  lemma Radix5(x: int -> Cpx, v: int -> Cpx, m: int, u: int)
    requires m >= 1 && IsRoot(v, m * 5) && 0 <= u < m
    ensures var t1, t2, t3, t4, ya, yb := Twisted(x, v, m, u, 1), Twisted(x, v, m, u, 2),
                                          Twisted(x, v, m, u, 3), Twisted(x, v, m, u, 4), v(m), v(2 * m);
            var za, zb := Conj(ya), Conj(yb);
            && Butterfly(x, v, 5, m, u) == Sum5(x(u), t1, t2, t3, t4)
            && Butterfly(x, v, 5, m, u + m) == Sum5(x(u), Mul(t1, ya), Mul(t2, yb), Mul(t3, zb), Mul(t4, za))
            && Butterfly(x, v, 5, m, u + 2 * m) == Sum5(x(u), Mul(t1, yb), Mul(t2, za), Mul(t3, ya), Mul(t4, zb))
            && Butterfly(x, v, 5, m, u + 3 * m) == Sum5(x(u), Mul(t1, zb), Mul(t2, ya), Mul(t3, za), Mul(t4, yb))
            && Butterfly(x, v, 5, m, u + 4 * m) == Sum5(x(u), Mul(t1, za), Mul(t2, zb), Mul(t3, yb), Mul(t4, ya))
  {
    hide Butterfly, Twisted, Rotation, Mul, Add, Conj;
    OutputSum(x, v, 5, m, u, 0);
    OutputSum(x, v, 5, m, u, 1);
    OutputSum(x, v, 5, m, u, 2);
    OutputSum(x, v, 5, m, u, 3);
    OutputSum(x, v, 5, m, u, 4);
    assert u + 0 * m == u && u + 1 * m == u + m;
    Untwisted(x, v, m * 5, m, u);
    FifthTurn(v, m);
    Products(x(u));
    Products(Twisted(x, v, m, u, 1));
    Products(Twisted(x, v, m, u, 2));
    Products(Twisted(x, v, m, u, 3));
    Products(Twisted(x, v, m, u, 4));
    SumOf5(Rotated(x, v, m, u, 0));
    SumOf5(Rotated(x, v, m, u, 1));
    SumOf5(Rotated(x, v, m, u, 2));
    SumOf5(Rotated(x, v, m, u, 3));
    SumOf5(Rotated(x, v, m, u, 4));
  }

  // ----- from placed sub-transforms to the whole transform

  // b is a with the n cells from o on holding the transform of y.
  ghost predicate Transformed(a: seq<Cpx>, b: seq<Cpx>, o: nat, y: int -> Cpx, v: int -> Cpx, n: nat) {
    && |a| == |b|
    && forall i :: 0 <= i < |a| ==> b[i] == if o <= i < o + n then Dft(y, v, n, i - o) else a[i]
  }

  // What belongs at offset k of a stage's input: bin k%m of sub-transform k/m.
  ghost function SubBin(y: int -> Cpx, v: int -> Cpx, p: int, m: nat, k: int): Cpx
    requires m >= 1
  {
    Dft(Decimate(y, p, k / m), Every(v, p), m, k % m)
  }

  // b is a with the first q sub-transforms in place from o on.
  ghost predicate Placed(a: seq<Cpx>, b: seq<Cpx>, o: nat, y: int -> Cpx, v: int -> Cpx, p: int, m: int, q: int)
    requires m >= 1
  {
    && |a| == |b|
    && forall i :: 0 <= i < |a| ==> b[i] == if o <= i < o + q * m then SubBin(y, v, p, m, i - o) else a[i]
  }

  lemma PlaceNext(a: seq<Cpx>, b: seq<Cpx>, c: seq<Cpx>, o: nat, y: int -> Cpx, v: int -> Cpx, p: nat, m: nat, q: int,
                  z: int -> Cpx, w: int -> Cpx)
    requires m >= 1 && 0 <= q < p
    requires Placed(a, b, o, y, v, p, m, q)
    requires Transformed(b, c, o + q * m, z, w, m)
    requires forall i :: 0 <= i < m ==> z(i) == Decimate(y, p, q)(i)
    requires forall e :: w(e) == Every(v, p)(e)
    ensures Placed(a, c, o, y, v, p, m, q + 1)
  {
    hide Dft, Decimate, Every, SubBin;
    var c0 := o + q * m;
    assert o + (q + 1) * m == c0 + m;
    forall i | c0 <= i < c0 + m && i < |c| ensures c[i] == SubBin(y, v, p, m, i - o) {
      DftEq(z, Decimate(y, p, q), w, Every(v, p), m, i - c0);
      SubBinAt(y, v, p, m, q, i - c0);
      assert i - o == q * m + (i - c0);
    }
  }

  lemma SubBinAt(y: int -> Cpx, v: int -> Cpx, p: int, m: nat, q: int, u: int)
    requires m >= 1 && 0 <= u < m
    ensures SubBin(y, v, p, m, q * m + u) == Dft(Decimate(y, p, q), Every(v, p), m, u)
  {
    hide Dft;
    ModUnique(q * m + u, m, q, u);
  }

  lemma PlaceSample(a: seq<Cpx>, b: seq<Cpx>, o: nat, y: int -> Cpx, v: int -> Cpx, p: nat, n: int, q: int)
    requires 0 <= q < p && o + q < |b| && IsRoot(v, n)
    requires Placed(a, b, o, y, v, p, 1, q)
    ensures Placed(a, b[o + q := y(q)], o, y, v, p, 1, q + 1)
  {
    hide Mul, IsRoot;
    assert q / 1 == q && q % 1 == 0;
    var w := Every(v, p);
    SampleIsDft(Decimate(y, p, q), w, y(q), v, n);
  }

  // A transform of length 1 is the sample itself.
  lemma SampleIsDft(x: int -> Cpx, w: int -> Cpx, s: Cpx, v: int -> Cpx, n: int)
    requires x(0) == s && w(0) == v(0) && IsRoot(v, n)
    ensures Dft(x, w, 1, 0) == s
  {
    hide Mul, IsRoot;
    RootZero(v, n);
    MulOne(s);
    assert Sum(1, DftTerm(x, w, 0)) == DftTerm(x, w, 0)(0);
    assert DftTerm(x, w, 0)(0) == Mul(x(0), w(0));
  }

  lemma RecombinedIsDft(a: seq<Cpx>, b: seq<Cpx>, c: seq<Cpx>, o: nat, y: int -> Cpx, v: int -> Cpx,
                        p: nat, m: nat, n: nat)
    requires m >= 1 && n == p * m && o + n <= |a| && IsRoot(v, n) && IsRoot(Every(v, p), m)
    requires Placed(a, b, o, y, v, p, m, p)
    requires Recombined(b, c, o, v, p, m)
    ensures Transformed(a, c, o, y, v, n)
  {
    hide Dft, IsRoot, Butterfly, Every, Decimate;
    var x := Strided(b, o, 1);
    forall q, u | 0 <= q < p && 0 <= u < m
      ensures x(u + q * m) == Dft(Decimate(y, p, q), Every(v, p), m, u)
    {
      CellInside(p, m, u, q);
    }
    forall k | 0 <= k < n ensures Butterfly(x, v, p, m, k) == Dft(y, v, n, k) {
      StageIsDft(x, y, v, p, m, n, k);
    }
    hide Strided, SubBin, Placed;
  }
}
