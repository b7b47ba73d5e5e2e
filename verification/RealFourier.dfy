/** The packed real transform: a real signal of length 2n by way of one complex transform of length n. */
module RealFourier {
  import opened Complex
  import opened Sums
  import opened Roots
  import opened Fourier

  ghost predicate RealSignal(x: int -> Cpx, n: int) {
    forall j :: 0 <= j < n ==> x(j).i == 0.0
  }

  ghost function Evens(x: int -> Cpx): int -> Cpx { Decimate(x, 2, 0) }
  ghost function Odds(x: int -> Cpx): int -> Cpx { Decimate(x, 2, 1) }

  // Even samples in the real parts, odd samples in the imaginary parts.
  ghost function Packed(x: int -> Cpx): int -> Cpx {
    j => Cpx(x(2 * j).r, x(2 * j + 1).r)
  }

  lemma ConjReal(x: Cpx, c: Cpx)
    requires x.i == 0.0
    ensures Conj(Mul(x, c)) == Mul(x, Conj(c))
  {}

  // A real signal's transform is conjugate-symmetric.
  lemma RealSymmetry(x: int -> Cpx, w: int -> Cpx, n: nat, k: int)
    requires RealSignal(x, n) && IsRoot(w, n)
    ensures Conj(Dft(x, w, n, n - k)) == Dft(x, w, n, k)
  {
    hide Mul, Conj, IsRoot;
    forall j | 0 <= j < n ensures DftTerm(x, w, k)(j) == Conj(DftTerm(x, w, n - k)(j)) {
      assert -(j * (n - k)) == j * k + n * -j;
      RootPeriod(w, n, j * k, -j);
      RootNeg(w, n, j * (n - k));
      ConjReal(x(j), w(j * (n - k)));
    }
    SumOfConj(n, DftTerm(x, w, n - k), DftTerm(x, w, k));
  }

  // w is the root of order n that the half-length transform uses, w2 the one of order 2n.
  ghost predicate HalfRoot(w: int -> Cpx, w2: int -> Cpx, n: nat) {
    n >= 1 && IsRoot(w2, 2 * n) && IsRoot(w, n) && forall a: int :: w(a) == w2(2 * a)
  }

  // A bin of the long transform from the even and the odd half.
  lemma SplitBin(x: int -> Cpx, w: int -> Cpx, w2: int -> Cpx, n: nat, k: int)
    requires HalfRoot(w, w2, n)
    ensures Dft(x, w2, 2 * n, k) == Add(Dft(Evens(x), w, n, k), Mul(w2(k), Dft(Odds(x), w, n, k)))
  {
    hide Mul, IsRoot, Dft;
    Decimation(x, w2, 2, n, 2 * n, k);
    var g := StageTerm(x, w2, 2, n, k);
    assert Sum(1, g) == g(0);
    assert Sum(2, g) == Add(g(0), g(1));
    DftEq(Evens(x), Evens(x), Every(w2, 2), w, n, k);
    DftEq(Odds(x), Odds(x), Every(w2, 2), w, n, k);
    RootZero(w2, 2 * n);
    MulOne(Dft(Evens(x), w, n, k));
    MulComm(w2(k), Dft(Odds(x), w, n, k));
  }

  lemma SplitBinAhead(x: int -> Cpx, w: int -> Cpx, w2: int -> Cpx, n: nat, k: int)
    requires HalfRoot(w, w2, n)
    ensures Dft(x, w2, 2 * n, n + k) == Sub(Dft(Evens(x), w, n, k), Mul(w2(k), Dft(Odds(x), w, n, k)))
  {
    var e, o := Dft(Evens(x), w, n, k), Dft(Odds(x), w, n, k);
    NegTurn(w2(k), o);
    hide Mul, IsRoot, Dft;
    SplitBin(x, w, w2, n, n + k);
    DftPeriod(Evens(x), w, n, k, 1);
    DftPeriod(Odds(x), w, n, k, 1);
    assert k + n * 1 == n + k;
    RootAdd(w2, 2 * n, n, k);
    HalfTurnOf(w2, n);
  }

  lemma NegTurn(a: Cpx, b: Cpx)
    ensures Mul(Mul(Cpx(-1.0, 0.0), a), b) == Sub(ZERO, Mul(a, b))
  {}

  // The half-length transform carries both halves at once.
  lemma PackedBin(x: int -> Cpx, w: int -> Cpx, n: nat, k: int)
    requires RealSignal(x, 2 * n)
    ensures Dft(Packed(x), w, n, k) == Add(Dft(Evens(x), w, n, k), Mul(I, Dft(Odds(x), w, n, k)))
  {
    var e, o, z := DftTerm(Evens(x), w, k), DftTerm(Odds(x), w, k), DftTerm(Packed(x), w, k);
    var io := (j: int) => Mul(I, o(j));
    forall j | 0 <= j < n ensures z(j) == Add(e(j), io(j)) {
      assert 0 <= 2 * j < 2 * n && 0 <= 2 * j + 1 < 2 * n;
      PackedTerm(x(2 * j), x(2 * j + 1), w(j * k));
    }
    hide Mul;
    SumOfAdd(n, e, io, z);
    SumOfMul(n, I, o, io);
  }

  lemma PackedTerm(a: Cpx, b: Cpx, c: Cpx)
    requires a.i == 0.0 && b.i == 0.0
    ensures Mul(Cpx(a.r, b.r), c) == Add(Mul(a, c), Mul(I, Mul(b, c)))
  {}

  // ----- the forward loop body

  lemma ForwardPair(e: Cpx, o: Cpx, c: Cpx, fpk: Cpx, fpnk: Cpx, s: Cpx)
    requires fpk == Add(e, Mul(I, o)) && fpnk == Sub(e, Mul(I, o)) && s == Mul(c, Conj(I))
    ensures var f1k, tw := Add(fpk, fpnk), Mul(Sub(fpk, fpnk), s);
            && Cpx((f1k.r + tw.r) * 0.5, (f1k.i + tw.i) * 0.5) == Add(e, Mul(c, o))
            && Cpx((f1k.r - tw.r) * 0.5, (tw.i - f1k.i) * 0.5) == Conj(Sub(e, Mul(c, o)))
  {
    assert Sub(fpk, fpnk) == Cpx(-2.0 * o.i, 2.0 * o.r);
    assert s == Cpx(c.i, -c.r);
    var tw := Mul(Sub(fpk, fpnk), s);
    assert tw == Cpx(2.0 * (o.r * c.r) - 2.0 * (o.i * c.i), 2.0 * (o.i * c.r) + 2.0 * (o.r * c.i));
    assert Mul(c, o) == Cpx(o.r * c.r - o.i * c.i, o.i * c.r + o.r * c.i);
    assert Add(fpk, fpnk) == Cpx(2.0 * e.r, 2.0 * e.i);
    hide Mul;
  }

  lemma ConjOfPacked(e: Cpx, o: Cpx)
    ensures Conj(Add(Conj(e), Mul(I, Conj(o)))) == Sub(e, Mul(I, o))
    ensures Conj(Conj(e)) == e
  {}

  // Bins k and n-k of the real transform from bins k and n-k of the packed one.
  lemma ForwardBins(x: int -> Cpx, w: int -> Cpx, w2: int -> Cpx, n: nat, k: int, zk: Cpx, znk: Cpx, s: Cpx)
    requires HalfRoot(w, w2, n) && RealSignal(x, 2 * n)
    requires zk == Dft(Packed(x), w, n, k) && znk == Dft(Packed(x), w, n, n - k) && s == Mul(w2(k), Conj(I))
    ensures var f1k, tw := Add(zk, Conj(znk)), Mul(Sub(zk, Conj(znk)), s);
            && Cpx((f1k.r + tw.r) * 0.5, (f1k.i + tw.i) * 0.5) == Dft(x, w2, 2 * n, k)
            && Cpx((f1k.r - tw.r) * 0.5, (tw.i - f1k.i) * 0.5) == Dft(x, w2, 2 * n, n - k)
  {
    hide Mul, IsRoot, Dft, Conj, Add, Sub, Packed;
    var e, o := Dft(Evens(x), w, n, k), Dft(Odds(x), w, n, k);
    RealHalves(x, n);
    PackedBin(x, w, n, k);
    PackedBin(x, w, n, n - k);
    RealSymmetry(Evens(x), w, n, n - k);
    RealSymmetry(Odds(x), w, n, n - k);
    assert n - (n - k) == k;
    ConjOfPacked(e, o);
    ForwardPair(e, o, w2(k), zk, Conj(znk), s);
    SplitBin(x, w, w2, n, k);
    SplitBinAhead(x, w, w2, n, k);
    RealSymmetry(x, w2, 2 * n, n - k);
    assert 2 * n - (n - k) == n + k;
  }

  lemma RealHalves(x: int -> Cpx, n: nat)
    requires RealSignal(x, 2 * n)
    ensures RealSignal(Evens(x), n) && RealSignal(Odds(x), n)
  {
    forall j | 0 <= j < n ensures Evens(x)(j).i == 0.0 && Odds(x)(j).i == 0.0 {
      assert 0 <= j * 2 + 0 < 2 * n && 0 <= j * 2 + 1 < 2 * n;
    }
  }

  // The two ends come from bin 0 alone and are real.
  lemma ForwardEnds(x: int -> Cpx, w: int -> Cpx, w2: int -> Cpx, n: nat, z0: Cpx)
    requires HalfRoot(w, w2, n) && RealSignal(x, 2 * n) && z0 == Dft(Packed(x), w, n, 0)
    ensures Dft(x, w2, 2 * n, 0) == Cpx(z0.r + z0.i, 0.0)
    ensures Dft(x, w2, 2 * n, n) == Cpx(z0.r - z0.i, 0.0)
  {
    hide IsRoot, Dft, Packed;
    var e, o := Dft(Evens(x), w, n, 0), Dft(Odds(x), w, n, 0);
    RealHalves(x, n);
    RealSymmetry(Evens(x), w, n, 0);
    RealSymmetry(Odds(x), w, n, 0);
    DftPeriod(Evens(x), w, n, 0, 1);
    DftPeriod(Odds(x), w, n, 0, 1);
    assert e.i == 0.0 && o.i == 0.0;
    PackedBin(x, w, n, 0);
    assert Mul(I, o) == Cpx(0.0, o.r);
    SplitBin(x, w, w2, n, 0);
    SplitBinAhead(x, w, w2, n, 0);
    RootZero(w2, 2 * n);
    MulOne(o);
  }

  // ----- the inverse

  // The bins 0..n of a half spectrum, extended to all 2n bins of a real signal's spectrum.
  // Of bins 0 and n only the real parts count.
  ghost function Hermitian(f: int -> Cpx, n: int): int -> Cpx {
    k => if k == 0 || k == n then Cpx(f(k).r, 0.0) else if k < n then f(k) else Conj(f(2 * n - k))
  }

  // What the inverse packs into bin k of its half-length input.
  ghost function RepackTerm(h: int -> Cpx, u2: int -> Cpx, n: int, k: int): Cpx {
    Add(Add(h(k), h(k + n)), Mul(Sub(h(k), h(k + n)), Mul(u2(k), I)))
  }

  ghost function Repacked(h: int -> Cpx, u2: int -> Cpx, n: int): int -> Cpx {
    k => RepackTerm(h, u2, n, k)
  }

  lemma EvenOutput(h: int -> Cpx, u: int -> Cpx, u2: int -> Cpx, n: nat, k: int, j: int)
    requires HalfRoot(u, u2, n)
    ensures u2(k * (2 * j)) == u(k * j) && u2((k + n) * (2 * j)) == u(k * j)
  {
    hide IsRoot;
    assert k * (2 * j) == 2 * (k * j);
    assert (k + n) * (2 * j) == 2 * (k * j) + (2 * n) * j;
    RootPeriod(u2, 2 * n, 2 * (k * j), j);
  }

  lemma OddOutput(h: int -> Cpx, u: int -> Cpx, u2: int -> Cpx, n: nat, k: int, j: int)
    requires HalfRoot(u, u2, n)
    ensures u2(k * (2 * j + 1)) == Mul(u2(k), u(k * j))
    ensures u2((k + n) * (2 * j + 1)) == Mul(Cpx(-1.0, 0.0), Mul(u2(k), u(k * j)))
  {
    hide Mul, IsRoot;
    assert k * (2 * j + 1) == k + 2 * (k * j);
    RootAdd(u2, 2 * n, k, 2 * (k * j));
    assert (k + n) * (2 * j + 1) == (n + k * (2 * j + 1)) + (2 * n) * j;
    RootPeriod(u2, 2 * n, n + k * (2 * j + 1), j);
    RootAdd(u2, 2 * n, n, k * (2 * j + 1));
    HalfTurnOf(u2, n);
  }

  lemma RepackedTerm(a: Cpx, b: Cpx, c: Cpx, d: Cpx)
    ensures Mul(Add(Add(a, b), Mul(Sub(a, b), Mul(d, I))), c)
         == Add(Add(Mul(a, c), Mul(b, c)), Mul(I, Add(Mul(a, Mul(d, c)), Mul(b, Mul(Cpx(-1.0, 0.0), Mul(d, c))))))
  {
    var s, t, m := Add(a, b), Sub(a, b), Cpx(-1.0, 0.0);
    MulAdd(c, a, b);
    MulAdd(c, s, Mul(t, Mul(d, I)));
    assert Mul(b, Mul(m, Mul(d, c))) == Mul(Mul(m, b), Mul(d, c)) by {
      MulAssoc(b, m, Mul(d, c));
      MulComm(b, m);
    }
    MulAdd(Mul(d, c), a, Mul(m, b));
    assert Add(a, Mul(m, b)) == t;
    assert Mul(Mul(t, Mul(d, I)), c) == Mul(I, Mul(t, Mul(d, c))) by {
      hide Mul, Add, Sub;
      Rotate(t, d, I, c);
    }
    hide Mul, Add, Sub;
  }

  lemma Rotate(t: Cpx, d: Cpx, i: Cpx, c: Cpx)
    ensures Mul(Mul(t, Mul(d, i)), c) == Mul(i, Mul(t, Mul(d, c)))
  {
    hide Mul;
    MulAssoc(t, d, i);
    MulComm(Mul(t, d), i);
    MulAssoc(i, Mul(t, d), c);
    MulAssoc(t, d, c);
  }

  // The terms k and k+n of a sum over 0..2n taken together.
  ghost function FoldTerm(g: int -> Cpx, n: int, k: int): Cpx {
    Add(g(k), g(k + n))
  }

  ghost function Folded(g: int -> Cpx, n: int): int -> Cpx {
    k => FoldTerm(g, n, k)
  }

  lemma FoldedSum(g: int -> Cpx, n: nat)
    ensures Sum(2 * n, g) == Sum(n, Folded(g, n))
  {
    hide Add;
    var ahead := (k: int) => g(k + n);
    SumSplit(n, n, g, ahead);
    assert n + n == 2 * n;
    SumOfAdd(n, g, ahead, Folded(g, n));
  }

  lemma EvenTerms(h: int -> Cpx, u: int -> Cpx, u2: int -> Cpx, n: nat, j: int, k: int)
    requires HalfRoot(u, u2, n)
    ensures Folded(DftTerm(h, u2, 2 * j), n)(k) == Add(Mul(h(k), u(k * j)), Mul(h(k + n), u(k * j)))
  {
    hide Mul, Add, IsRoot;
    EvenOutput(h, u, u2, n, k, j);
  }

  lemma OddTerms(h: int -> Cpx, u: int -> Cpx, u2: int -> Cpx, n: nat, j: int, k: int)
    requires HalfRoot(u, u2, n)
    ensures Folded(DftTerm(h, u2, 2 * j + 1), n)(k)
         == Add(Mul(h(k), Mul(u2(k), u(k * j))), Mul(h(k + n), Mul(Cpx(-1.0, 0.0), Mul(u2(k), u(k * j)))))
  {
    hide Mul, Add, IsRoot;
    OddOutput(h, u, u2, n, k, j);
  }

  lemma RepackedTermAt(h: int -> Cpx, u: int -> Cpx, u2: int -> Cpx, n: nat, j: int, k: int)
    requires HalfRoot(u, u2, n)
    ensures DftTerm(Repacked(h, u2, n), u, j)(k)
         == Add(Folded(DftTerm(h, u2, 2 * j), n)(k), Mul(I, Folded(DftTerm(h, u2, 2 * j + 1), n)(k)))
  {
    hide Mul, Add, Sub, HalfRoot, Folded;
    EvenTerms(h, u, u2, n, j, k);
    OddTerms(h, u, u2, n, j, k);
    RepackedTerm(h(k), h(k + n), u(k * j), u2(k));
    assert DftTerm(Repacked(h, u2, n), u, j)(k) == Mul(Repacked(h, u2, n)(k), u(k * j));
    hide DftTerm;
  }

  // One half-length transform of the repacked bins gives two outputs of the long one.
  lemma RepackedOutput(h: int -> Cpx, u: int -> Cpx, u2: int -> Cpx, n: nat, j: int)
    requires HalfRoot(u, u2, n)
    ensures Dft(Repacked(h, u2, n), u, n, j)
         == Add(Dft(h, u2, 2 * n, 2 * j), Mul(I, Dft(h, u2, 2 * n, 2 * j + 1)))
  {
    hide Mul, Add, HalfRoot, Repacked, DftTerm, Folded;
    var z := DftTerm(Repacked(h, u2, n), u, j);
    var e, o := Folded(DftTerm(h, u2, 2 * j), n), Folded(DftTerm(h, u2, 2 * j + 1), n);
    var io := (k: int) => Mul(I, o(k));
    forall k | 0 <= k < n ensures z(k) == Add(e(k), io(k)) {
      RepackedTermAt(h, u, u2, n, j, k);
    }
    SumOfAdd(n, e, io, z);
    SumOfMul(n, I, o, io);
    FoldedSum(DftTerm(h, u2, 2 * j), n);
    FoldedSum(DftTerm(h, u2, 2 * j + 1), n);
  }

  // ----- the outputs are real

  lemma {:induction false} SumShift(n: nat, g: int -> Cpx, h: int -> Cpx)
    requires forall i {:trigger h(i)} :: 0 <= i < n ==> h(i) == g(i + 1)
    ensures Sum(n + 1, g) == Add(g(0), Sum(n, h))
  {
    if n > 0 { SumShift(n - 1, g, h); }
  }

  lemma {:induction false} SumReverse(n: nat, g: int -> Cpx, h: int -> Cpx)
    requires forall i {:trigger h(i)} :: 0 <= i < n ==> h(i) == g(n - 1 - i)
    ensures Sum(n, h) == Sum(n, g)
  {
    if n > 0 {
      var rest := (i: int) => h(i + 1);
      SumShift(n - 1, h, rest);
      SumReverse(n - 1, g, rest);
    }
  }

  // Terms that are conjugate in pairs i, m-1-i add up to something real.
  lemma PairedSumReal(m: nat, h: int -> Cpx)
    requires forall i :: 0 <= i < m ==> Conj(h(i)) == h(m - 1 - i)
    ensures Sum(m, h).i == 0.0
  {
    var c := (i: int) => Conj(h(i));
    SumOfConj(m, h, c);
    SumReverse(m, h, c);
    assert Conj(Sum(m, h)) == Sum(m, h);
  }

  lemma HermitianConj(f: int -> Cpx, n: nat, k: int)
    requires 0 < k < 2 * n
    ensures Hermitian(f, n)(2 * n - k) == Conj(Hermitian(f, n)(k))
  {
    assert 2 * n - (2 * n - k) == k;
    assert Conj(Conj(f(k))) == f(k) && Conj(Conj(f(2 * n - k))) == f(2 * n - k);
  }

  lemma HermitianTerm(f: int -> Cpx, u2: int -> Cpx, n: nat, j: int, k: int)
    requires n >= 1 && IsRoot(u2, 2 * n) && 0 < k < 2 * n
    ensures DftTerm(Hermitian(f, n), u2, j)(2 * n - k) == Conj(DftTerm(Hermitian(f, n), u2, j)(k))
  {
    hide Mul, IsRoot, Hermitian, Conj;
    var h := Hermitian(f, n);
    HermitianConj(f, n, k);
    assert (2 * n - k) * j == -(k * j) + (2 * n) * j;
    RootPeriod(u2, 2 * n, -(k * j), j);
    RootNeg(u2, 2 * n, k * j);
    ConjMul(h(k), u2(k * j));
  }

  lemma HermitianReal(f: int -> Cpx, u2: int -> Cpx, n: nat, j: int)
    requires n >= 1 && IsRoot(u2, 2 * n)
    ensures Dft(Hermitian(f, n), u2, 2 * n, j).i == 0.0
  {
    var g := DftTerm(Hermitian(f, n), u2, j);
    var h := (i: int) => g(i + 1);
    var m := 2 * n - 1;
    assert g(0).i == 0.0 by {
      RootZero(u2, 2 * n);
      assert 0 * j == 0;
      MulOne(Hermitian(f, n)(0));
    }
    hide Mul, Conj, IsRoot, DftTerm;
    forall i | 0 <= i < m ensures Conj(h(i)) == h(m - 1 - i) {
      HermitianTerm(f, u2, n, j, i + 1);
      assert 2 * n - (i + 1) == m - 1 - i + 1;
    }
    PairedSumReal(m, h);
    SumShift(m, g, h);
  }

  // ----- the inverse loop body

  lemma BackwardPair(a: Cpx, b: Cpx, d: Cpx)
    ensures Conj(Sub(Add(a, b), Mul(Sub(a, b), Mul(d, I))))
         == Add(Add(Conj(b), Conj(a)), Mul(Sub(Conj(b), Conj(a)), Mul(Mul(Cpx(-1.0, 0.0), Conj(d)), I)))
  {
    var p := Mul(Sub(a, b), Mul(d, I));
    assert Mul(d, I) == Cpx(-d.i, d.r);
    assert Mul(Mul(Cpx(-1.0, 0.0), Conj(d)), I) == Cpx(-d.i, -d.r);
    assert Cpx(-d.i, -d.r) == Conj(Mul(d, I));
    assert Sub(Conj(b), Conj(a)) == Conj(Sub(b, a));
    ConjMul(Sub(b, a), Mul(d, I));
    assert Mul(Sub(b, a), Mul(d, I)) == Sub(ZERO, p) by {
      NegLeft(a, b, Mul(d, I));
    }
    hide Mul;
  }

  lemma NegLeft(a: Cpx, b: Cpx, c: Cpx)
    ensures Mul(Sub(b, a), c) == Sub(ZERO, Mul(Sub(a, b), c))
  {}

  // Bins k and n-k of the repacked spectrum, as the loop computes them.
  lemma HermitianAt(f: int -> Cpx, n: nat, k: int)
    requires 0 < k < n
    ensures var h := Hermitian(f, n);
            && h(k) == f(k) && h(k + n) == Conj(f(n - k))
            && h(n - k) == f(n - k) && h(n - k + n) == Conj(f(k))
            && Conj(Conj(f(n - k))) == f(n - k)
  {
    assert 2 * n - (k + n) == n - k && 2 * n - (n - k + n) == k;
  }

  lemma TurnAhead(u2: int -> Cpx, n: nat, k: int)
    requires n >= 1 && IsRoot(u2, 2 * n)
    ensures u2(n - k) == Mul(Cpx(-1.0, 0.0), Conj(u2(k)))
  {
    hide Mul, IsRoot, Conj;
    assert n - k == n + -k;
    RootAdd(u2, 2 * n, n, -k);
    HalfTurnOf(u2, n);
    RootNeg(u2, 2 * n, k);
  }

  lemma BackwardBins(f: int -> Cpx, u2: int -> Cpx, n: nat, k: int)
    requires n >= 1 && IsRoot(u2, 2 * n) && 0 < k < n
    ensures var h, s := Hermitian(f, n), Mul(u2(k), I);
            var fek, fok := Add(f(k), Conj(f(n - k))), Mul(Sub(f(k), Conj(f(n - k))), s);
            && Add(fek, fok) == Repacked(h, u2, n)(k)
            && Conj(Sub(fek, fok)) == Repacked(h, u2, n)(n - k)
  {
    hide Mul, IsRoot, Hermitian, Conj, Sub, Add;
    HermitianAt(f, n, k);
    BackwardPair(f(k), Conj(f(n - k)), u2(k));
    TurnAhead(u2, n, k);
  }

  lemma BackwardEnds(f: int -> Cpx, u2: int -> Cpx, n: nat)
    requires n >= 1 && IsRoot(u2, 2 * n)
    ensures Repacked(Hermitian(f, n), u2, n)(0) == Cpx(f(0).r + f(n).r, f(0).r - f(n).r)
  {
    hide IsRoot, Mul, Add, Sub;
    RootZero(u2, 2 * n);
    EndsPack(f(0).r, f(n).r);
  }

  lemma EndsPack(a: real, b: real)
    ensures Add(Add(Cpx(a, 0.0), Cpx(b, 0.0)), Mul(Sub(Cpx(a, 0.0), Cpx(b, 0.0)), Mul(ONE, I))) == Cpx(a + b, a - b)
  {
    MulOne(I);
    assert Mul(Cpx(a - b, 0.0), I) == Cpx(0.0, a - b);
  }

  // The transform of a real signal is its own extension from bins 0..n.
  lemma SpectrumHermitian(x: int -> Cpx, f: int -> Cpx, w2: int -> Cpx, n: nat, k: int)
    requires n >= 1 && IsRoot(w2, 2 * n) && RealSignal(x, 2 * n)
    requires forall i :: 0 <= i <= n ==> f(i) == Dft(x, w2, 2 * n, i)
    requires 0 <= k < 2 * n
    ensures Hermitian(f, n)(k) == Dft(x, w2, 2 * n, k)
  {
    hide IsRoot, Dft;
    RealSymmetry(x, w2, 2 * n, k);
    if k == 0 {
      DftPeriod(x, w2, 2 * n, 0, 1);
    }
  }
}
