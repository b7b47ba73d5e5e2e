/** One column of a stage at radix 2, 3, 4 and 5, in the order the loops compute it. */
module Columns {
  import opened Complex
  import opened Roots
  import opened Butterflies

  lemma Column2(a: seq<Cpx>, b: seq<Cpx>, c: seq<Cpx>, o: nat, v: int -> Cpx, m: int, u: int, t: Cpx)
    requires m >= 1 && 0 <= u < m && o + 2 * m <= |a| && IsRoot(v, m * 2)
    requires Underway(a, b, o, v, 2, m, u, 0)
    requires |b| == |a| && t == Mul(b[o + u + m], v(u))
    requires c == b[o + u := Add(b[o + u], t)][o + u + m := Sub(b[o + u], t)]
    ensures Underway(a, c, o, v, 2, m, u + 1, 0)
  {
    hide Mul, Add, Sub, Butterfly, Underway, Twisted;
    var x := Strided(a, o, 1);
    StageRead(a, b, o, v, 2, m, u, 0, 0);
    StageRead(a, b, o, v, 2, m, u, 0, 1);
    TwistedDef(x, v, m, u, 1);
    Radix2(x, v, m, u);
    StageWrite(a, b, o, v, 2, m, u, 0);
    StageWrite(a, b[o + u := Add(x(u), t)], o, v, 2, m, u, 1);
    StageColumn(a, c, o, v, 2, m, u);
  }

  // What the radix-3 column leaves, from its input and the two twisted inputs;
  // e is the imaginary part of the third of a turn.
  ghost function Out3(x0: Cpx, t1: Cpx, t2: Cpx, e: real): (Cpx, Cpx, Cpx) {
    var s, d := Add(t1, t2), Scale(e, Sub(t1, t2));
    var h := Cpx(x0.r - s.r * 0.5, x0.i - s.i * 0.5);
    (Add(x0, s), Cpx(h.r - d.i, h.i + d.r), Cpx(h.r + d.i, h.i - d.r))
  }

  lemma ThirdTimes(t: Cpx, e: real)
    ensures Mul(t, Cpx(-0.5, e)) == Cpx(-0.5 * t.r - e * t.i, e * t.r - 0.5 * t.i)
    ensures Mul(t, Cpx(-0.5, -e)) == Cpx(-0.5 * t.r + e * t.i, -(e * t.r) - 0.5 * t.i)
  {}

  lemma ScaleSub(e: real, s: Cpx, t: Cpx)
    ensures Scale(e, Sub(s, t)) == Cpx(e * s.r - e * t.r, e * s.i - e * t.i)
  {}

  lemma Out3Is(x0: Cpx, t1: Cpx, t2: Cpx, a: Cpx)
    requires a.r == -0.5
    ensures Out3(x0, t1, t2, a.i)
         == (Add(Add(x0, t1), t2), Add(Add(x0, Mul(t1, a)), Mul(t2, Conj(a))),
             Add(Add(x0, Mul(t1, Conj(a))), Mul(t2, a)))
  {
    hide Mul, Scale;
    var e := a.i;
    assert a == Cpx(-0.5, e) && Conj(a) == Cpx(-0.5, -e);
    ThirdTimes(t1, e);
    ThirdTimes(t2, e);
    ScaleSub(e, t1, t2);
    var (y0, y1, y2) := Out3(x0, t1, t2, e);
    assert y0 == Add(Add(x0, t1), t2);
    assert y1 == Add(Add(x0, Mul(t1, a)), Mul(t2, Conj(a)));
    assert y2 == Add(Add(x0, Mul(t1, Conj(a))), Mul(t2, a));
  }

  lemma Outputs3(a: seq<Cpx>, b: seq<Cpx>, c: seq<Cpx>, o: nat, v: int -> Cpx, m: int, u: int,
                t1: Cpx, t2: Cpx)
    requires m >= 1 && 0 <= u < m && o + 3 * m <= |a| && IsRoot(v, m * 3)
    requires Underway(a, b, o, v, 3, m, u, 0) && |c| == |b| == |a|
    requires t1 == Mul(b[o + u + m], v(u))
    requires t2 == Mul(b[o + u + 2 * m], v(2 * u))
    requires (c[o + u], c[o + u + m], c[o + u + 2 * m])
          == Out3(b[o + u], t1, t2, v(m).i)
    ensures CellDone(a, c, o, v, 3, m, u, 0) && CellDone(a, c, o, v, 3, m, u, 1)
    ensures CellDone(a, c, o, v, 3, m, u, 2)
  {
    hide Mul, Add, Sub, Conj, Butterfly, Underway, Twisted, Out3, IsRoot, CellDone, Strided;
    var x := Strided(a, o, 1);
    StageRead(a, b, o, v, 3, m, u, 0, 0);
    StageRead(a, b, o, v, 3, m, u, 0, 1);
    StageRead(a, b, o, v, 3, m, u, 0, 2);
    TwistedDef(x, v, m, u, 1);
    TwistedDef(x, v, m, u, 2);
    Radix3(x, v, m, u);
    Out3Is(x(u), t1, t2, v(m));
    CellInside(3, m, u, 2);
    CellIs(a, c, o, v, 3, m, u, 0);
    CellIs(a, c, o, v, 3, m, u, 1);
    CellIs(a, c, o, v, 3, m, u, 2);
  }

  lemma Column3(a: seq<Cpx>, b: seq<Cpx>, c: seq<Cpx>, o: nat, v: int -> Cpx, m: int, u: int,
                t1: Cpx, t2: Cpx)
    requires m >= 1 && 0 <= u < m && o + 3 * m <= |a| && IsRoot(v, m * 3)
    requires Underway(a, b, o, v, 3, m, u, 0) && |c| == |b| == |a|
    requires t1 == Mul(b[o + u + m], v(u))
    requires t2 == Mul(b[o + u + 2 * m], v(2 * u))
    requires (c[o + u], c[o + u + m], c[o + u + 2 * m])
          == Out3(b[o + u], t1, t2, v(m).i)
    requires forall i :: 0 <= i < |b| && i !in {o + u, o + u + m, o + u + 2 * m}
               ==> c[i] == b[i]
    ensures Underway(a, c, o, v, 3, m, u + 1, 0)
  {
    hide Mul, Add, Sub, Underway, CellDone, IsRoot, Out3;
    Outputs3(a, b, c, o, v, m, u, t1, t2);
    CellInside(3, m, u, 0);
    CellInside(3, m, u, 1);
    CellInside(3, m, u, 2);
    forall q | 0 <= q < 3 ensures CellDone(a, c, o, v, 3, m, u, q) {
      if q == 0 {} else if q == 1 {} else { assert q == 2; }
    }
    ColumnWrites(a, b, c, o, v, 3, m, u);
  }

  // The radix-4 column; the quarter turn is taken forwards or backwards.
  ghost function Out4(x0: Cpx, t1: Cpx, t2: Cpx, t3: Cpx, inverse: bool): (Cpx, Cpx, Cpx, Cpx) {
    var d2, s2, s13, d13 := Sub(x0, t2), Add(x0, t2), Add(t1, t3), Sub(t1, t3);
    var ahead, behind := Cpx(d2.r - d13.i, d2.i + d13.r), Cpx(d2.r + d13.i, d2.i - d13.r);
    (Add(s2, s13), if inverse then ahead else behind, Sub(s2, s13), if inverse then behind else ahead)
  }

  lemma Out4Is(x0: Cpx, t1: Cpx, t2: Cpx, t3: Cpx, inverse: bool, b: Cpx)
    requires b == if inverse then I else Conj(I)
    ensures Out4(x0, t1, t2, t3, inverse)
         == (Sum4(x0, t1, t2, t3), Sum4(x0, Mul(t1, b), Neg(t2), Mul(t3, Conj(b))),
             Sum4(x0, Neg(t1), t2, Neg(t3)), Sum4(x0, Mul(t1, Conj(b)), Neg(t2), Mul(t3, b)))
  {
    assert Mul(t1, I) == Cpx(-t1.i, t1.r) && Mul(t3, I) == Cpx(-t3.i, t3.r);
    assert Mul(t1, Conj(I)) == Cpx(t1.i, -t1.r) && Mul(t3, Conj(I)) == Cpx(t3.i, -t3.r);
    assert Conj(Conj(I)) == I;
    hide Mul;
    var (y0, y1, y2, y3) := Out4(x0, t1, t2, t3, inverse);
    assert y0 == Sum4(x0, t1, t2, t3);
    assert y1 == Sum4(x0, Mul(t1, b), Neg(t2), Mul(t3, Conj(b)));
    assert y2 == Sum4(x0, Neg(t1), t2, Neg(t3));
    assert y3 == Sum4(x0, Mul(t1, Conj(b)), Neg(t2), Mul(t3, b));
  }

  lemma Outputs4(a: seq<Cpx>, b: seq<Cpx>, c: seq<Cpx>, o: nat, v: int -> Cpx, m: int, u: int,
                t1: Cpx, t2: Cpx, t3: Cpx, inverse: bool)
    requires m >= 1 && 0 <= u < m && o + 4 * m <= |a| && IsRoot(v, m * 4)
    requires v(m) == if inverse then I else Conj(I)
    requires Underway(a, b, o, v, 4, m, u, 0) && |c| == |b| == |a|
    requires t1 == Mul(b[o + u + m], v(u))
    requires t2 == Mul(b[o + u + 2 * m], v(2 * u))
    requires t3 == Mul(b[o + u + 3 * m], v(3 * u))
    requires (c[o + u], c[o + u + m], c[o + u + 2 * m], c[o + u + 3 * m])
          == Out4(b[o + u], t1, t2, t3, inverse)
    ensures CellDone(a, c, o, v, 4, m, u, 0) && CellDone(a, c, o, v, 4, m, u, 1)
    ensures CellDone(a, c, o, v, 4, m, u, 2) && CellDone(a, c, o, v, 4, m, u, 3)
  {
    hide Mul, Add, Sub, Conj, Butterfly, Underway, Twisted, Out4, Sum4, Neg, IsRoot, CellDone, Strided;
    var x := Strided(a, o, 1);
    StageRead(a, b, o, v, 4, m, u, 0, 0);
    StageRead(a, b, o, v, 4, m, u, 0, 1);
    StageRead(a, b, o, v, 4, m, u, 0, 2);
    StageRead(a, b, o, v, 4, m, u, 0, 3);
    TwistedDef(x, v, m, u, 1);
    TwistedDef(x, v, m, u, 2);
    TwistedDef(x, v, m, u, 3);
    Radix4(x, v, m, u);
    Out4Is(x(u), t1, t2, t3, inverse, v(m));
    CellInside(4, m, u, 3);
    CellIs(a, c, o, v, 4, m, u, 0);
    CellIs(a, c, o, v, 4, m, u, 1);
    CellIs(a, c, o, v, 4, m, u, 2);
    CellIs(a, c, o, v, 4, m, u, 3);
  }

  lemma Column4(a: seq<Cpx>, b: seq<Cpx>, c: seq<Cpx>, o: nat, v: int -> Cpx, m: int, u: int,
                t1: Cpx, t2: Cpx, t3: Cpx, inverse: bool)
    requires m >= 1 && 0 <= u < m && o + 4 * m <= |a| && IsRoot(v, m * 4)
    requires v(m) == if inverse then I else Conj(I)
    requires Underway(a, b, o, v, 4, m, u, 0) && |c| == |b| == |a|
    requires t1 == Mul(b[o + u + m], v(u))
    requires t2 == Mul(b[o + u + 2 * m], v(2 * u))
    requires t3 == Mul(b[o + u + 3 * m], v(3 * u))
    requires (c[o + u], c[o + u + m], c[o + u + 2 * m], c[o + u + 3 * m])
          == Out4(b[o + u], t1, t2, t3, inverse)
    requires forall i :: 0 <= i < |b| && i !in {o + u, o + u + m, o + u + 2 * m, o + u + 3 * m}
               ==> c[i] == b[i]
    ensures Underway(a, c, o, v, 4, m, u + 1, 0)
  {
    hide Mul, Add, Sub, Underway, CellDone, IsRoot, Out4;
    Outputs4(a, b, c, o, v, m, u, t1, t2, t3, inverse);
    CellInside(4, m, u, 0);
    CellInside(4, m, u, 1);
    CellInside(4, m, u, 2);
    CellInside(4, m, u, 3);
    forall q | 0 <= q < 4 ensures CellDone(a, c, o, v, 4, m, u, q) {
      if q == 0 {} else if q == 1 {} else if q == 2 {} else { assert q == 3; }
    }
    ColumnWrites(a, b, c, o, v, 4, m, u);
  }

  // The radix-5 column; ya and yb are one and two fifths of a turn, and the
  // twisted inputs enter by their sums and differences.
  ghost function EvenPart(x0: Cpx, s: Cpx, y: Cpx, t: Cpx, z: Cpx): Cpx {
    Cpx(x0.r + s.r * y.r + t.r * z.r, x0.i + s.i * y.r + t.i * z.r)
  }

  ghost function OddPart1(d: Cpx, y: Cpx, e: Cpx, z: Cpx): Cpx {
    Cpx(d.i * y.i + e.i * z.i, -(d.r * y.i) - e.r * z.i)
  }

  ghost function OddPart2(d: Cpx, y: Cpx, e: Cpx, z: Cpx): Cpx {
    Cpx(-(d.i * y.i) + e.i * z.i, d.r * y.i - e.r * z.i)
  }

  lemma PartsAre(x0: Cpx, s: Cpx, d: Cpx, y: Cpx, t: Cpx, e: Cpx, z: Cpx)
    ensures EvenPart(x0, s, y, t, z) == Cpx(x0.r + s.r * y.r + t.r * z.r, x0.i + s.i * y.r + t.i * z.r)
    ensures OddPart1(d, y, e, z) == Cpx(d.i * y.i + e.i * z.i, -(d.r * y.i) - e.r * z.i)
    ensures OddPart2(d, y, e, z) == Cpx(-(d.i * y.i) + e.i * z.i, d.r * y.i - e.r * z.i)
  {}

  ghost function Out5(x0: Cpx, s14: Cpx, d14: Cpx, s23: Cpx, d23: Cpx, ya: Cpx, yb: Cpx)
    : (Cpx, Cpx, Cpx, Cpx, Cpx)
  {
    var g, h := EvenPart(x0, s14, ya, s23, yb), OddPart1(d14, ya, d23, yb);
    var k, l := EvenPart(x0, s14, yb, s23, ya), OddPart2(d14, yb, d23, ya);
    (Add(x0, Add(s14, s23)), Sub(g, h), Add(k, l), Sub(k, l), Add(g, h))
  }

  // s*y + t*conj(y) by way of the sum and the difference of s and t.
  ghost function Fold(s: Cpx, d: Cpx, y: Cpx): Cpx {
    Cpx(s.r * y.r - d.i * y.i, s.i * y.r + d.r * y.i)
  }

  lemma FoldIs(s: Cpx, t: Cpx, y: Cpx)
    ensures Fold(Add(s, t), Sub(s, t), y) == Add(Mul(s, y), Mul(t, Conj(y)))
  {}

  lemma FoldBack(s: Cpx, d: Cpx, y: Cpx)
    ensures Fold(s, Sub(ZERO, d), y) == Cpx(s.r * y.r + d.i * y.i, s.i * y.r - d.r * y.i)
  {}

  lemma FoldConj(s: Cpx, t: Cpx, y: Cpx)
    ensures Fold(Add(s, t), Sub(ZERO, Sub(s, t)), y) == Add(Mul(s, Conj(y)), Mul(t, y))
  {}

  lemma Parts1(x0: Cpx, s: Cpx, d: Cpx, y: Cpx, t: Cpx, e: Cpx, z: Cpx)
    ensures Sub(EvenPart(x0, s, y, t, z), OddPart1(d, y, e, z)) == Add(x0, Add(Fold(s, d, y), Fold(t, e, z)))
    ensures Add(EvenPart(x0, s, y, t, z), OddPart1(d, y, e, z))
         == Add(x0, Add(Fold(s, Sub(ZERO, d), y), Fold(t, Sub(ZERO, e), z)))
  {
    FoldBack(s, d, y);
    FoldBack(t, e, z);
    var p, q := Fold(s, d, y), Fold(t, e, z);
    assert p.r == s.r * y.r - d.i * y.i && p.i == s.i * y.r + d.r * y.i;
    assert q.r == t.r * z.r - e.i * z.i && q.i == t.i * z.r + e.r * z.i;
    hide Fold;
  }

  lemma Parts2(x0: Cpx, s: Cpx, d: Cpx, y: Cpx, t: Cpx, e: Cpx, z: Cpx)
    ensures Add(EvenPart(x0, s, y, t, z), OddPart2(d, y, e, z))
         == Add(x0, Add(Fold(s, d, y), Fold(t, Sub(ZERO, e), z)))
    ensures Sub(EvenPart(x0, s, y, t, z), OddPart2(d, y, e, z))
         == Add(x0, Add(Fold(s, Sub(ZERO, d), y), Fold(t, e, z)))
  {
    FoldBack(s, d, y);
    FoldBack(t, e, z);
    var p, q := Fold(s, d, y), Fold(t, e, z);
    assert p.r == s.r * y.r - d.i * y.i && p.i == s.i * y.r + d.r * y.i;
    assert q.r == t.r * z.r - e.i * z.i && q.i == t.i * z.r + e.r * z.i;
    hide Fold;
  }

  lemma AddTwice(x: Cpx, s: Cpx, t: Cpx)
    ensures Cpx(x.r + (s.r + t.r), x.i + (s.i + t.i)) == Add(x, Add(s, t))
  {}

  lemma Regroup(x: Cpx, a: Cpx, b: Cpx, c: Cpx, d: Cpx)
    ensures Add(x, Add(Add(a, d), Add(b, c))) == Sum5(x, a, b, c, d)
  {}

  lemma Out5Is(x0: Cpx, t1: Cpx, t2: Cpx, t3: Cpx, t4: Cpx, ya: Cpx, yb: Cpx)
    ensures Out5(x0, Add(t1, t4), Sub(t1, t4), Add(t2, t3), Sub(t2, t3), ya, yb)
         == (Sum5(x0, t1, t2, t3, t4),
             Sum5(x0, Mul(t1, ya), Mul(t2, yb), Mul(t3, Conj(yb)), Mul(t4, Conj(ya))),
             Sum5(x0, Mul(t1, yb), Mul(t2, Conj(ya)), Mul(t3, ya), Mul(t4, Conj(yb))),
             Sum5(x0, Mul(t1, Conj(yb)), Mul(t2, ya), Mul(t3, Conj(ya)), Mul(t4, yb)),
             Sum5(x0, Mul(t1, Conj(ya)), Mul(t2, Conj(yb)), Mul(t3, yb), Mul(t4, ya)))
  {
    hide Mul, Add, Sub, Conj, Fold, EvenPart, OddPart1, OddPart2, Sum5;
    Parts1(x0, Add(t1, t4), Sub(t1, t4), ya, Add(t2, t3), Sub(t2, t3), yb);
    Parts2(x0, Add(t1, t4), Sub(t1, t4), yb, Add(t2, t3), Sub(t2, t3), ya);
    FoldIs(t1, t4, ya);
    FoldIs(t1, t4, yb);
    FoldConj(t1, t4, ya);
    FoldConj(t1, t4, yb);
    FoldIs(t2, t3, ya);
    FoldIs(t2, t3, yb);
    FoldConj(t2, t3, ya);
    FoldConj(t2, t3, yb);
    Regroup(x0, t1, t2, t3, t4);
    Regroup(x0, Mul(t1, ya), Mul(t2, yb), Mul(t3, Conj(yb)), Mul(t4, Conj(ya)));
    Regroup(x0, Mul(t1, yb), Mul(t2, Conj(ya)), Mul(t3, ya), Mul(t4, Conj(yb)));
    Regroup(x0, Mul(t1, Conj(yb)), Mul(t2, ya), Mul(t3, Conj(ya)), Mul(t4, yb));
    Regroup(x0, Mul(t1, Conj(ya)), Mul(t2, Conj(yb)), Mul(t3, yb), Mul(t4, ya));
  }

  lemma Outputs5(a: seq<Cpx>, b: seq<Cpx>, c: seq<Cpx>, o: nat, v: int -> Cpx, m: int, u: int,
                t1: Cpx, t2: Cpx, t3: Cpx, t4: Cpx)
    requires m >= 1 && 0 <= u < m && o + 5 * m <= |a| && IsRoot(v, m * 5)
    requires Underway(a, b, o, v, 5, m, u, 0) && |c| == |b| == |a|
    requires t1 == Mul(b[o + u + m], v(u))
    requires t2 == Mul(b[o + u + 2 * m], v(2 * u))
    requires t3 == Mul(b[o + u + 3 * m], v(3 * u))
    requires t4 == Mul(b[o + u + 4 * m], v(4 * u))
    requires (c[o + u], c[o + u + m], c[o + u + 2 * m], c[o + u + 3 * m], c[o + u + 4 * m])
          == Out5(b[o + u], Add(t1, t4), Sub(t1, t4), Add(t2, t3), Sub(t2, t3), v(m), v(2 * m))
    ensures CellDone(a, c, o, v, 5, m, u, 0) && CellDone(a, c, o, v, 5, m, u, 1)
    ensures CellDone(a, c, o, v, 5, m, u, 2) && CellDone(a, c, o, v, 5, m, u, 3)
    ensures CellDone(a, c, o, v, 5, m, u, 4)
  {
    hide Mul, Add, Sub, Conj, Butterfly, Underway, Twisted, Out5, Sum5, IsRoot, CellDone, Strided;
    var x := Strided(a, o, 1);
    StageRead(a, b, o, v, 5, m, u, 0, 0);
    StageRead(a, b, o, v, 5, m, u, 0, 1);
    StageRead(a, b, o, v, 5, m, u, 0, 2);
    StageRead(a, b, o, v, 5, m, u, 0, 3);
    StageRead(a, b, o, v, 5, m, u, 0, 4);
    TwistedDef(x, v, m, u, 1);
    TwistedDef(x, v, m, u, 2);
    TwistedDef(x, v, m, u, 3);
    TwistedDef(x, v, m, u, 4);
    Radix5(x, v, m, u);
    Out5Is(x(u), t1, t2, t3, t4, v(m), v(2 * m));
    CellInside(5, m, u, 4);
    CellIs(a, c, o, v, 5, m, u, 0);
    CellIs(a, c, o, v, 5, m, u, 1);
    CellIs(a, c, o, v, 5, m, u, 2);
    CellIs(a, c, o, v, 5, m, u, 3);
    CellIs(a, c, o, v, 5, m, u, 4);
  }

  lemma Column5(a: seq<Cpx>, b: seq<Cpx>, c: seq<Cpx>, o: nat, v: int -> Cpx, m: int, u: int,
                t1: Cpx, t2: Cpx, t3: Cpx, t4: Cpx)
    requires m >= 1 && 0 <= u < m && o + 5 * m <= |a| && IsRoot(v, m * 5)
    requires Underway(a, b, o, v, 5, m, u, 0) && |c| == |b| == |a|
    requires t1 == Mul(b[o + u + m], v(u))
    requires t2 == Mul(b[o + u + 2 * m], v(2 * u))
    requires t3 == Mul(b[o + u + 3 * m], v(3 * u))
    requires t4 == Mul(b[o + u + 4 * m], v(4 * u))
    requires (c[o + u], c[o + u + m], c[o + u + 2 * m], c[o + u + 3 * m], c[o + u + 4 * m])
          == Out5(b[o + u], Add(t1, t4), Sub(t1, t4), Add(t2, t3), Sub(t2, t3), v(m), v(2 * m))
    requires forall i :: 0 <= i < |b| && i !in {o + u, o + u + m, o + u + 2 * m, o + u + 3 * m, o + u + 4 * m}
               ==> c[i] == b[i]
    ensures Underway(a, c, o, v, 5, m, u + 1, 0)
  {
    hide Mul, Add, Sub, Underway, CellDone, IsRoot, Out5;
    Outputs5(a, b, c, o, v, m, u, t1, t2, t3, t4);
    CellInside(5, m, u, 0);
    CellInside(5, m, u, 1);
    CellInside(5, m, u, 2);
    CellInside(5, m, u, 3);
    CellInside(5, m, u, 4);
    forall q | 0 <= q < 5 ensures CellDone(a, c, o, v, 5, m, u, q) {
      if q == 0 {} else if q == 1 {} else if q == 2 {} else if q == 3 {} else { assert q == 4; }
    }
    ColumnWrites(a, b, c, o, v, 5, m, u);
  }
}
