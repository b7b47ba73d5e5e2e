/** The mixed-radix transform of kiss_fft.c over arrays, proved to compute the DFT sum. */
module Fft {
  import opened Arith
  import opened Complex
  import opened Sums
  import opened Roots
  import opened Circle
  import opened Factors
  import opened Fourier
  import opened Butterflies
  import opened Columns

  type Length = n: int | n >= 1 witness 1

  method FillTwiddles(twiddles: array<Cpx>, inverse: bool, cexp: real -> Cpx)
    requires twiddles.Length >= 1
    modifies twiddles
    ensures forall j :: 0 <= j < twiddles.Length ==> twiddles[j] == Turns(cexp, twiddles.Length, inverse)(j)
  {
    hide Ratio;
    var nfft := twiddles.Length;
    for i := 0 to nfft
      invariant forall j :: 0 <= j < i ==> twiddles[j] == Turns(cexp, nfft, inverse)(j)
    {
      var phase := -Ratio(i, nfft);
      if inverse { phase := phase * -1.0; }
      assert phase == Phase(i, nfft, inverse);
      assert Turns(cexp, nfft, inverse)(i) == cexp(Phase(i, nfft, inverse));
      twiddles[i] := cexp(phase);
    }
  }

  class KissFftState {
    const nfft: Length
    const inverse: bool
    const factors: array<int>
    const twiddles: array<Cpx>
    ghost const cexp: real -> Cpx

    // kiss_fft_alloc: the table of twiddles and the stage list.
    constructor (nfft: Length, inverse: bool, cexp: real -> Cpx)
      requires nfft < 0x8000_0000 && CircleExp(cexp)
      ensures this.nfft == nfft && this.inverse == inverse && this.cexp == cexp
      ensures Valid() && fresh(twiddles) && fresh(factors)
    {
      this.nfft, this.inverse, this.cexp := nfft, inverse, cexp;
      twiddles := new Cpx[nfft](i => ZERO);
      factors := new int[2 * MAXFACTORS](i => 0);
      new;
      hide CircleExp, Mul, Factored, Turns;
      FillTwiddles(twiddles, inverse, cexp);
      ghost var stages := KfFactor(nfft, factors);
    }

    // The powers of the root of unity this state transforms with.
    ghost function W(): int -> Cpx {
      Turns(cexp, nfft, inverse)
    }

    ghost predicate Valid()
      reads factors, twiddles
    {
      && CircleExp(cexp)
      && twiddles.Length == nfft
      && (forall j :: 0 <= j < nfft ==> twiddles[j] == W()(j))
      && Factored(factors[..], 0, nfft)
    }

    lemma ValidCircle()
      requires Valid()
      ensures CircleExp(cexp)
    {}

    // A stage at this stride uses the fstride-th powers.
    ghost function V(fstride: int): int -> Cpx {
      Every(W(), fstride)
    }

    // A stage of radix p over sub-transforms of length m, at this stride.
    ghost predicate Stage(fstride: int, p: int, m: int) {
      fstride >= 1 && p >= 1 && m >= 1 && m * p >= 1 && fstride * (m * p) == nfft
    }

    lemma StageRoot(fstride: int, p: int, m: int)
      requires Valid() && Stage(fstride, p, m)
      ensures IsRoot(V(fstride), m * p)
    {
      TurnsIsRoot(cexp, nfft, inverse);
      EveryIsRoot(W(), fstride, m * p);
    }

    // The q-th twiddle pointer of the loops after u columns.
    ghost function Pointer(fstride: int, q: int, u: int): int {
      fstride * (q * u)
    }

    lemma PointerStep(fstride: int, q: int, u: int)
      ensures Pointer(fstride, q, 0) == 0
      ensures Pointer(fstride, q, u) + fstride * q == Pointer(fstride, q, u + 1)
    {}

    lemma PointerForms(fstride: int, u: int)
      ensures u * fstride == Pointer(fstride, 1, u) && 2 * u * fstride == Pointer(fstride, 2, u)
      ensures 3 * u * fstride == Pointer(fstride, 3, u) && 4 * u * fstride == Pointer(fstride, 4, u)
    {}

    lemma PointerInside(fstride: int, p: int, m: int, q: int, u: int)
      requires Stage(fstride, p, m) && 0 <= q < p && 0 <= u < m
      ensures 0 <= Pointer(fstride, q, u) < nfft
    {
      MulMono(u, q, p);
      assert p * u < p * m;
      assert q * u >= 0;
      MulLess(fstride, q * u, m * p);
    }

    // What it points at is the (q*u)-th power of the stage's root.
    lemma TwiddleAt(fstride: int, p: int, m: int, q: int, u: int)
      requires Valid() && Stage(fstride, p, m) && 0 <= q < p && 0 <= u < m
      ensures 0 <= Pointer(fstride, q, u) < twiddles.Length
      ensures twiddles[Pointer(fstride, q, u)] == V(fstride)(q * u)
    {
      PointerInside(fstride, p, m, q, u);
    }

    lemma RotationIndex(fstride: int, p: int, m: int, q: int)
      requires Valid() && Stage(fstride, p, m) && 0 <= q < p
      ensures 0 <= fstride * q * m < twiddles.Length
      ensures twiddles[fstride * q * m] == V(fstride)(q * m)
    {
      hide CircleExp, Turns, Factored;
      TimesSwap(fstride, q, m);
      MulLess(m, q, p);
      MulLess(fstride, m * q, m * p);
      assert m * q == q * m && 0 <= m * q;
      MulMono(fstride, 0, m * q);
    }

    // The running twiddle index of the generic loop: q steps of fstride*k, modulo nfft.
    ghost function Twidx(fstride: int, k: int, q: int): int {
      (fstride * k * q) % nfft
    }

    lemma TwidxStart(fstride: int, k: int)
      ensures Twidx(fstride, k, 0) == 0
    {
      assert fstride * k * 0 == 0;
    }

    // One conditional subtraction is enough.
    lemma TwidxStep(fstride: int, k: int, q: int)
      requires 0 <= fstride * k < nfft
      ensures 0 <= Twidx(fstride, k, q) < nfft
      ensures var t := Twidx(fstride, k, q) + fstride * k;
              Twidx(fstride, k, q + 1) == if t >= nfft then t - nfft else t
    {
      var a, c := fstride * k * q, fstride * k;
      assert fstride * k * (q + 1) == a + c;
      AddMod(a, c, nfft);
    }

    lemma TwidxAt(fstride: int, k: int, q: int)
      requires Valid()
      ensures 0 <= Twidx(fstride, k, q) < twiddles.Length
      ensures twiddles[Twidx(fstride, k, q)] == V(fstride)(q * k)
    {
      hide Mul, IsRoot;
      TurnsIsRoot(cexp, nfft, inverse);
      hide CircleExp, Turns, Factored;
      var a := fstride * k * q;
      TimesSwap(fstride, k, q);
      RootMod(W(), nfft, a);
    }

    lemma StageLess(fstride: int, p: int, m: int, k: int)
      requires Stage(fstride, p, m) && 0 <= k < p * m
      ensures 0 <= fstride * k < nfft
    {
      MulLess(fstride, k, m * p);
    }

    lemma TermAt(fstride: int, p: int, m: int, x: int -> Cpx, k: int, q: int)
      requires Valid() && m >= 1 && Stage(fstride, p, m)
      ensures 0 <= Twidx(fstride, k, q) < twiddles.Length
      ensures BflyTerm(x, V(fstride), m, k)(q) == Mul(x(k % m + q * m), twiddles[Twidx(fstride, k, q)])
    {
      hide Mul;
      StageRoot(fstride, p, m);
      TwidxAt(fstride, k, q);
    }

    lemma FirstTerm(fstride: int, p: int, m: int, x: int -> Cpx, k: int)
      requires Valid() && m >= 1 && Stage(fstride, p, m)
      ensures BflyTerm(x, V(fstride), m, k)(0) == x(k % m)
    {
      hide Mul;
      StageRoot(fstride, p, m);
      RootZero(V(fstride), m * p);
      MulOne(x(k % m));
    }

    // The stage kf_work finds itself in, and the next one down.
    lemma WorkStage(fstride: int, p: int, m: int, n: int)
      requires Valid() && p >= 1 && m >= 1 && fstride >= 1 && p * m == n && fstride * n == nfft
      ensures Stage(fstride, p, m) && IsRoot(V(fstride), n) && IsRoot(Every(V(fstride), p), m)
      ensures fstride * p >= 1 && fstride * p * m == nfft
    {
      hide Valid, IsRoot;
      assert m * p == n && n >= 1 by { MulMono(m, 1, p); }
      StageRoot(fstride, p, m);
      EveryIsRoot(V(fstride), p, m);
      MulMono(fstride, 1, p);
      assert fstride * p * m == fstride * (p * m);
    }

    lemma SubTransform(a: seq<Cpx>, b: seq<Cpx>, c: seq<Cpx>, o: nat, f: seq<Cpx>, fo: int, fstride: int, inStride: int,
                       p: int, m: int, q: int)
      requires m >= 1 && 0 <= q < p && o + q * m >= 0
      requires Placed(a, b, o, Strided(f, fo, fstride * inStride), V(fstride), p, m, q)
      requires Transformed(b, c, o + q * m, Strided(f, fo + q * (fstride * inStride), fstride * p * inStride),
                           V(fstride * p), m)
      ensures Placed(a, c, o, Strided(f, fo, fstride * inStride), V(fstride), p, m, q + 1)
    {
      var step := fstride * inStride;
      var y, z := Strided(f, fo, step), Strided(f, fo + q * step, fstride * p * inStride);
      forall i | 0 <= i < m ensures z(i) == Decimate(y, p, q)(i) {
        SubStride(step, fstride, inStride, p, q, i);
      }
      forall e: int ensures V(fstride * p)(e) == Every(V(fstride), p)(e) {
        assert fstride * p * e == fstride * (p * e);
      }
      hide Placed, Transformed, Strided, V, Decimate, Every;
      PlaceNext(a, b, c, o, y, V(fstride), p, m, q, z, V(fstride * p));
    }

    // In a radix-4 stage the first rotation is a quarter turn.
    lemma StageQuarter(fstride: int, m: int)
      requires Valid() && Stage(fstride, 4, m)
      ensures V(fstride)(m) == if inverse then I else Conj(I)
    {
      TurnsQuarter(cexp, nfft, inverse, fstride * m);
    }
  }

  lemma TimesSwap(a: int, b: int, c: int)
    ensures a * b * c == a * (c * b)
  {}

  lemma PlaceStart(a: seq<Cpx>, o: nat, y: int -> Cpx, v: int -> Cpx, p: int, m: int)
    requires m >= 1
    ensures Placed(a, a, o, y, v, p, m, 0)
  {}

  lemma SubFits(p: int, m: int, n: int, q: int)
    requires m >= 1 && 0 <= q < p && n == p * m
    ensures 0 <= q * m && q * m + m <= n && (q + 1) * m == q * m + m
    ensures q * m + m == n <==> q + 1 == p
  {
    MulMono(m, q + 1, p);
    MulMono(m, q + 2, p);
  }

  lemma SumFirst(g: int -> Cpx)
    ensures Sum(1, g) == g(0)
  {}

  // ----- butterflies

  method KfBfly2(Fout: array<Cpx>, o: nat, fstride: int, st: KissFftState, m: int)
    requires st.Valid() && Fout != st.twiddles
    requires m >= 1 && st.Stage(fstride, 2, m)
    requires o + 2 * m <= Fout.Length
    modifies Fout
    ensures Recombined(old(Fout[..]), Fout[..], o, st.V(fstride), 2, m)
  {
    hide Mul, Add, Sub, Underway, Recombined, KissFftState.Valid, KissFftState.Stage, KissFftState.Pointer,
         KissFftState.V, IsRoot;
    ghost var a, v, u := Fout[..], st.V(fstride), 0;
    st.StageRoot(fstride, 2, m);
    StageStart(a, o, v, 2, m);
    st.PointerStep(fstride, 1, 0);
    var f, f2, tw1, k := o, o + m, 0, m;
    while true
      invariant 1 <= k && u == m - k && 0 <= u
      invariant f == o + u && f2 == f + m && tw1 == st.Pointer(fstride, 1, u)
      invariant Underway(a, Fout[..], o, v, 2, m, u, 0)
      decreases k
    {
      ghost var b := Fout[..];
      st.TwiddleAt(fstride, 2, m, 1, u);
      st.PointerStep(fstride, 1, u);
      var t := Mul(Fout[f2], st.twiddles[tw1]);
      tw1 := tw1 + fstride;
      Fout[f2] := Sub(Fout[f], t);
      Fout[f] := Add(Fout[f], t);
      f2 := f2 + 1;
      f := f + 1;
      Column2(a, b, Fout[..], o, v, m, u, t);
      u := u + 1;
      k := k - 1;
      if k == 0 { break; }
    }
    StageEnd(a, Fout[..], o, v, 2, m);
  }

  // The body of the radix-3 loop: one column, its cells m apart from f on.
  method RotateColumn3(Fout: array<Cpx>, f: nat, m: nat, w1: Cpx, w2: Cpx, epi3: Cpx)
    requires m >= 1 && f + 2 * m < Fout.Length
    modifies Fout
    ensures (Fout[f], Fout[f + m], Fout[f + 2 * m])
         == old(Out3(Fout[f], Mul(Fout[f + m], w1), Mul(Fout[f + 2 * m], w2), epi3.i))
    ensures forall i :: 0 <= i < Fout.Length && i !in {f, f + m, f + 2 * m} ==> Fout[i] == old(Fout[i])
  {
    hide Mul;
    var m2 := 2 * m;
    var s1 := Mul(Fout[f + m], w1);
    var s2 := Mul(Fout[f + m2], w2);
    var s3 := Add(s1, s2);
    var s0 := Sub(s1, s2);
    Fout[f + m] := Cpx(Fout[f].r - s3.r * 0.5, Fout[f].i - s3.i * 0.5);
    s0 := Scale(epi3.i, s0);
    Fout[f] := Add(Fout[f], s3);
    Fout[f + m2] := Cpx(Fout[f + m].r + s0.i, Fout[f + m].i - s0.r);
    Fout[f + m] := Cpx(Fout[f + m].r - s0.i, Fout[f + m].i + s0.r);
  }

  method KfBfly3(Fout: array<Cpx>, o: nat, fstride: int, st: KissFftState, m: int)
    requires st.Valid() && Fout != st.twiddles
    requires m >= 1 && st.Stage(fstride, 3, m)
    requires o + 3 * m <= Fout.Length
    modifies Fout
    ensures Recombined(old(Fout[..]), Fout[..], o, st.V(fstride), 3, m)
  {
    hide Mul, Underway, Recombined, KissFftState.Valid, KissFftState.Stage, KissFftState.Pointer, KissFftState.V,
         IsRoot, Out3;
    ghost var a, v, u := Fout[..], st.V(fstride), 0;
    st.StageRoot(fstride, 3, m);
    StageStart(a, o, v, 3, m);
    st.PointerStep(fstride, 1, 0);
    st.PointerStep(fstride, 2, 0);
    st.RotationIndex(fstride, 3, m, 1);
    var k, epi3 := m, st.twiddles[fstride * m];
    var f, tw1, tw2 := o, 0, 0;
    while true
      invariant 1 <= k && u == m - k && 0 <= u
      invariant f == o + u && tw1 == st.Pointer(fstride, 1, u) && tw2 == st.Pointer(fstride, 2, u)
      invariant Underway(a, Fout[..], o, v, 3, m, u, 0)
      decreases k
    {
      ghost var b := Fout[..];
      st.TwiddleAt(fstride, 3, m, 1, u);
      st.TwiddleAt(fstride, 3, m, 2, u);
      st.PointerStep(fstride, 1, u);
      st.PointerStep(fstride, 2, u);
      RotateColumn3(Fout, f, m, st.twiddles[tw1], st.twiddles[tw2], epi3);
      Column3(a, b, Fout[..], o, v, m, u, Mul(b[f + m], v(1 * u)), Mul(b[f + 2 * m], v(2 * u)));
      tw1 := tw1 + fstride;
      tw2 := tw2 + fstride * 2;
      f := f + 1;
      u := u + 1;
      k := k - 1;
      if k == 0 { break; }
    }
    StageEnd(a, Fout[..], o, v, 3, m);
  }

  // The body of the radix-4 loop.
  method RotateColumn4(Fout: array<Cpx>, f: nat, m: nat, w1: Cpx, w2: Cpx, w3: Cpx, inverse: bool)
    requires m >= 1 && f + 3 * m < Fout.Length
    modifies Fout
    ensures (Fout[f], Fout[f + m], Fout[f + 2 * m], Fout[f + 3 * m])
         == old(Out4(Fout[f], Mul(Fout[f + m], w1), Mul(Fout[f + 2 * m], w2), Mul(Fout[f + 3 * m], w3), inverse))
    ensures forall i :: 0 <= i < Fout.Length && i !in {f, f + m, f + 2 * m, f + 3 * m} ==> Fout[i] == old(Fout[i])
  {
    hide Mul;
    var m2, m3 := 2 * m, 3 * m;
    var s0 := Mul(Fout[f + m], w1);
    var s1 := Mul(Fout[f + m2], w2);
    var s2 := Mul(Fout[f + m3], w3);
    var s5 := Sub(Fout[f], s1);
    Fout[f] := Add(Fout[f], s1);
    var s3 := Add(s0, s2);
    var s4 := Sub(s0, s2);
    Fout[f + m2] := Sub(Fout[f], s3);
    Fout[f] := Add(Fout[f], s3);
    if inverse {
      Fout[f + m] := Cpx(s5.r - s4.i, s5.i + s4.r);
      Fout[f + m3] := Cpx(s5.r + s4.i, s5.i - s4.r);
    } else {
      Fout[f + m] := Cpx(s5.r + s4.i, s5.i - s4.r);
      Fout[f + m3] := Cpx(s5.r - s4.i, s5.i + s4.r);
    }
  }

  method KfBfly4(Fout: array<Cpx>, o: nat, fstride: int, st: KissFftState, m: int)
    requires st.Valid() && Fout != st.twiddles
    requires m >= 1 && st.Stage(fstride, 4, m)
    requires o + 4 * m <= Fout.Length
    modifies Fout
    ensures Recombined(old(Fout[..]), Fout[..], o, st.V(fstride), 4, m)
  {
    hide Mul, Underway, Recombined, KissFftState.Valid, KissFftState.Stage, KissFftState.Pointer, KissFftState.V,
         IsRoot, Out4;
    ghost var a, v, u := Fout[..], st.V(fstride), 0;
    st.StageRoot(fstride, 4, m);
    st.StageQuarter(fstride, m);
    StageStart(a, o, v, 4, m);
    st.PointerStep(fstride, 1, 0);
    st.PointerStep(fstride, 2, 0);
    st.PointerStep(fstride, 3, 0);
    var k, f, tw1, tw2, tw3 := m, o, 0, 0, 0;
    while true
      invariant 1 <= k && u == m - k && 0 <= u
      invariant f == o + u && tw1 == st.Pointer(fstride, 1, u)
      invariant tw2 == st.Pointer(fstride, 2, u) && tw3 == st.Pointer(fstride, 3, u)
      invariant Underway(a, Fout[..], o, v, 4, m, u, 0)
      decreases k
    {
      ghost var b := Fout[..];
      st.TwiddleAt(fstride, 4, m, 1, u);
      st.TwiddleAt(fstride, 4, m, 2, u);
      st.TwiddleAt(fstride, 4, m, 3, u);
      st.PointerStep(fstride, 1, u);
      st.PointerStep(fstride, 2, u);
      st.PointerStep(fstride, 3, u);
      RotateColumn4(Fout, f, m, st.twiddles[tw1], st.twiddles[tw2], st.twiddles[tw3], st.inverse);
      Column4(a, b, Fout[..], o, v, m, u, Mul(b[f + m], v(1 * u)), Mul(b[f + 2 * m], v(2 * u)),
              Mul(b[f + 3 * m], v(3 * u)), st.inverse);
      tw1 := tw1 + fstride;
      tw2 := tw2 + fstride * 2;
      tw3 := tw3 + fstride * 3;
      f := f + 1;
      u := u + 1;
      k := k - 1;
      if k == 0 { break; }
    }
    StageEnd(a, Fout[..], o, v, 4, m);
  }

  // The body of the radix-5 loop.
  method RotateColumn5(Fout: array<Cpx>, f: nat, m: nat, w1: Cpx, w2: Cpx, w3: Cpx, w4: Cpx, ya: Cpx, yb: Cpx)
    requires m >= 1 && f + 4 * m < Fout.Length
    modifies Fout
    ensures (Fout[f], Fout[f + m], Fout[f + 2 * m], Fout[f + 3 * m], Fout[f + 4 * m])
         == old(Out5(Fout[f], Add(Mul(Fout[f + m], w1), Mul(Fout[f + 4 * m], w4)),
                     Sub(Mul(Fout[f + m], w1), Mul(Fout[f + 4 * m], w4)),
                     Add(Mul(Fout[f + 2 * m], w2), Mul(Fout[f + 3 * m], w3)),
                     Sub(Mul(Fout[f + 2 * m], w2), Mul(Fout[f + 3 * m], w3)), ya, yb))
    ensures forall i :: 0 <= i < Fout.Length && i !in {f, f + m, f + 2 * m, f + 3 * m, f + 4 * m}
              ==> Fout[i] == old(Fout[i])
  {
    hide Mul, Add, Sub, EvenPart, OddPart1, OddPart2;
    var f0, f1, f2, f3, f4 := f, f + m, f + 2 * m, f + 3 * m, f + 4 * m;
    var s0 := Fout[f0];
    var s1 := Mul(Fout[f1], w1);
    var s2 := Mul(Fout[f2], w2);
    var s3 := Mul(Fout[f3], w3);
    var s4 := Mul(Fout[f4], w4);
    var s7, s10 := Add(s1, s4), Sub(s1, s4);
    var s8, s9 := Add(s2, s3), Sub(s2, s3);
    Fout[f0] := Cpx(Fout[f0].r + (s7.r + s8.r), Fout[f0].i + (s7.i + s8.i));
    AddTwice(s0, s7, s8);
    var s5 := Cpx(s0.r + s7.r * ya.r + s8.r * yb.r, s0.i + s7.i * ya.r + s8.i * yb.r);
    var s6 := Cpx(s10.i * ya.i + s9.i * yb.i, -(s10.r * ya.i) - s9.r * yb.i);
    PartsAre(s0, s7, s10, ya, s8, s9, yb);
    Fout[f1] := Sub(s5, s6);
    Fout[f4] := Add(s5, s6);
    var s11 := Cpx(s0.r + s7.r * yb.r + s8.r * ya.r, s0.i + s7.i * yb.r + s8.i * ya.r);
    var s12 := Cpx(-(s10.i * yb.i) + s9.i * ya.i, s10.r * yb.i - s9.r * ya.i);
    PartsAre(s0, s7, s10, yb, s8, s9, ya);
    Fout[f2] := Add(s11, s12);
    Fout[f3] := Sub(s11, s12);
  }

  method KfBfly5(Fout: array<Cpx>, o: nat, fstride: int, st: KissFftState, m: int)
    requires st.Valid() && Fout != st.twiddles
    requires m >= 1 && st.Stage(fstride, 5, m)
    requires o + 5 * m <= Fout.Length
    modifies Fout
    ensures Recombined(old(Fout[..]), Fout[..], o, st.V(fstride), 5, m)
  {
    hide Mul, Underway, Recombined, KissFftState.Valid, KissFftState.Stage, KissFftState.Pointer, KissFftState.V,
         IsRoot, Out5;
    ghost var a, v := Fout[..], st.V(fstride);
    st.StageRoot(fstride, 5, m);
    StageStart(a, o, v, 5, m);
    st.RotationIndex(fstride, 5, m, 1);
    st.RotationIndex(fstride, 5, m, 2);
    var ya, yb := st.twiddles[fstride * m], st.twiddles[fstride * 2 * m];
    for u := 0 to m
      invariant Underway(a, Fout[..], o, v, 5, m, u, 0)
    {
      ghost var b := Fout[..];
      st.TwiddleAt(fstride, 5, m, 1, u);
      st.TwiddleAt(fstride, 5, m, 2, u);
      st.TwiddleAt(fstride, 5, m, 3, u);
      st.TwiddleAt(fstride, 5, m, 4, u);
      st.PointerForms(fstride, u);
      RotateColumn5(Fout, o + u, m, st.twiddles[u * fstride], st.twiddles[2 * u * fstride],
                    st.twiddles[3 * u * fstride], st.twiddles[4 * u * fstride], ya, yb);
      Column5(a, b, Fout[..], o, v, m, u, Mul(b[o + u + m], v(1 * u)), Mul(b[o + u + 2 * m], v(2 * u)),
              Mul(b[o + u + 3 * m], v(3 * u)), Mul(b[o + u + 4 * m], v(4 * u)));
    }
    StageEnd(a, Fout[..], o, v, 5, m);
  }

  // The inner loop of the generic butterfly: output k of column u into cell c.
  method OutputCell(Fout: array<Cpx>, c: nat, fstride: int, k: int, scratch: array<Cpx>, st: KissFftState, p: int,
                    ghost x: int -> Cpx, ghost m: int, ghost u: int)
    requires st.Valid() && Fout != st.twiddles && Fout != scratch
    requires m >= 1 && p >= 1 && st.Stage(fstride, p, m) && c < Fout.Length && scratch.Length == p
    requires 0 <= k < p * m && k % m == u
    requires forall q :: 0 <= q < p ==> scratch[q] == x(u + q * m)
    modifies Fout
    ensures Fout[..] == old(Fout[..])[c := Butterfly(x, st.V(fstride), p, m, k)]
  {
    hide Mul, Add, Underway, Recombined, KissFftState.Valid, KissFftState.Stage, KissFftState.V, KissFftState.Twidx,
         IsRoot, BflyTerm;
    ghost var v := st.V(fstride);
    ghost var g := BflyTerm(x, v, m, k);
    st.StageLess(fstride, p, m, k);
    st.TwidxStart(fstride, k);
    st.FirstTerm(fstride, p, m, x, k);
    var norig, step := st.nfft, fstride * k;
    var twidx, q := 0, 1;
    Fout[c] := scratch[0];
    SumFirst(g);
    while q < p
      invariant 1 <= q <= p && twidx == st.Twidx(fstride, k, q - 1)
      invariant Fout[..] == old(Fout[..])[c := Sum(q, g)]
    {
      st.TwidxStep(fstride, k, q - 1);
      twidx := twidx + step;
      if twidx >= norig { twidx := twidx - norig; }
      st.TermAt(fstride, p, m, x, k, q);
      var t := Mul(scratch[q], st.twiddles[twidx]);
      Fout[c] := Add(Fout[c], t);
      q := q + 1;
    }
  }

  method KfBflyGeneric(Fout: array<Cpx>, o: nat, fstride: int, st: KissFftState, m: int, p: int)
    requires st.Valid() && Fout != st.twiddles
    requires m >= 1 && p >= 1 && st.Stage(fstride, p, m)
    requires o + p * m <= Fout.Length
    modifies Fout
    ensures Recombined(old(Fout[..]), Fout[..], o, st.V(fstride), p, m)
  {
    hide Mul, Underway, Recombined, KissFftState.Valid, KissFftState.Stage, KissFftState.V, IsRoot, Butterfly;
    ghost var a, v := Fout[..], st.V(fstride);
    ghost var x := Strided(a, o, 1);
    StageStart(a, o, v, p, m);
    var scratch := new Cpx[p](i => ZERO);
    for u := 0 to m
      invariant Underway(a, Fout[..], o, v, p, m, u, 0)
    {
      var k := u;
      for q1 := 0 to p
        invariant k == u + q1 * m
        invariant Fout.Length == |a| && Underway(a, Fout[..], o, v, p, m, u, 0)
        invariant forall q :: 0 <= q < q1 ==> scratch[q] == x(u + q * m)
      {
        StageRead(a, Fout[..], o, v, p, m, u, 0, q1);
        scratch[q1] := Fout[o + k];
        k := k + m;
      }
      k := u;
      for q1 := 0 to p
        invariant k == u + q1 * m
        invariant Fout.Length == |a| && Underway(a, Fout[..], o, v, p, m, u, q1)
        invariant forall q :: 0 <= q < p ==> scratch[q] == x(u + q * m)
      {
        CellInside(p, m, u, q1);
        StageWrite(a, Fout[..], o, v, p, m, u, q1);
        OutputCell(Fout, o + k, fstride, k, scratch, st, p, x, m, u);
        k := k + m;
      }
      StageColumn(a, Fout[..], o, v, p, m, u);
    }
    StageEnd(a, Fout[..], o, v, p, m);
  }

  // The switch on the radix at the end of kf_work.
  method Recombine(Fout: array<Cpx>, o: nat, fstride: int, st: KissFftState, m: int, p: int)
    requires st.Valid() && Fout != st.twiddles
    requires m >= 1 && p >= 1 && st.Stage(fstride, p, m)
    requires o + p * m <= Fout.Length
    modifies Fout
    ensures Recombined(old(Fout[..]), Fout[..], o, st.V(fstride), p, m)
  {
    hide Recombined, KissFftState.Valid, KissFftState.Stage, KissFftState.V;
    match p {
      case 2 => KfBfly2(Fout, o, fstride, st, m);
      case 3 => KfBfly3(Fout, o, fstride, st, m);
      case 4 => KfBfly4(Fout, o, fstride, st, m);
      case 5 => KfBfly5(Fout, o, fstride, st, m);
      case _ => KfBflyGeneric(Fout, o, fstride, st, m, p);
    }
  }

  // ----- the recursion

  ghost predicate Inside(length: int, o: int, step: int, j: int) {
    0 <= o + j * step < length
  }

  // The n samples from o on, step apart, are all there.
  ghost predicate Readable(length: int, o: int, step: int, n: int) {
    forall j :: 0 <= j < n ==> Inside(length, o, step, j)
  }

  lemma SubStride(step: int, fstride: int, inStride: int, p: int, q: int, i: int)
    requires step == fstride * inStride
    ensures q * step + i * (fstride * p * inStride) == (i * p + q) * step
  {}

  // Sub-transform q reads every p-th sample from the q-th on.
  lemma SubReadable(length: int, o: int, fstride: int, inStride: int, p: int, m: int, n: int, q: int)
    requires Readable(length, o, fstride * inStride, n) && n == p * m && 0 <= q < p && m >= 1
    ensures Inside(length, o, fstride * inStride, q)
    ensures Readable(length, o + q * (fstride * inStride), fstride * p * inStride, m)
  {
    MulMono(p, 1, m);
    var step := fstride * inStride;
    var o', step' := o + q * step, fstride * p * inStride;
    forall i | 0 <= i < m ensures Inside(length, o', step', i) {
      SubStride(step, fstride, inStride, p, q, i);
      MulMono(p, i + 1, m);
      assert (i + 1) * p == i * p + p;
      assert Inside(length, o, step, i * p + q);
    }
  }

  lemma StridedAt(s: seq<Cpx>, o: int, step: int, j: int)
    requires Inside(|s|, o, step, j)
    ensures Strided(s, o, step)(j) == s[o + j * step]
  {}

  // The bottom of the recursion: sub-transforms of length 1 are the samples.
  method CopySamples(Fout: array<Cpx>, o: nat, f: array<Cpx>, fo: int, step: int, p: int,
                     ghost v: int -> Cpx, ghost n: int)
    requires Fout != f && p >= 1 && o + p <= Fout.Length
    requires Readable(f.Length, fo, step, p) && IsRoot(v, n)
    modifies Fout
    ensures Placed(old(Fout[..]), Fout[..], o, Strided(f[..], fo, step), v, p, 1, p)
  {
    hide IsRoot, Placed, Strided;
    ghost var a, y, q := Fout[..], Strided(f[..], fo, step), 0;
    PlaceStart(a, o, y, v, p, 1);
    var F, g, end := o, fo, o + p;
    while true
      invariant 0 <= q < p && F == o + q && g == fo + q * step
      invariant Placed(a, Fout[..], o, y, v, p, 1, q)
      decreases p - q
    {
      assert Inside(f.Length, fo, step, q);
      StridedAt(f[..], fo, step, q);
      PlaceSample(a, Fout[..], o, y, v, p, n, q);
      Fout[F] := f[g];
      g := g + step;
      F := F + 1;
      q := q + 1;
      if F == end { break; }
    }
  }

  method KfWork(Fout: array<Cpx>, o: nat, f: array<Cpx>, fo: int, fstride: int, inStride: int, fi: nat,
                st: KissFftState, ghost n: nat)
    requires st.Valid() && Fout != st.twiddles && Fout != f
    requires Factored(st.factors[..], fi, n) && fstride >= 1 && fstride * n == st.nfft
    requires o + n <= Fout.Length
    requires Readable(f.Length, fo, fstride * inStride, n)
    modifies Fout
    ensures Transformed(old(Fout[..]), Fout[..], o, Strided(f[..], fo, fstride * inStride), st.V(fstride), n)
    decreases st.factors.Length - fi
  {
    hide Mul, IsRoot, Placed, Transformed, Recombined, KissFftState.Valid, KissFftState.V, KissFftState.Stage, Strided;
    var p, m := st.factors[fi], st.factors[fi + 1];
    var step := fstride * inStride;
    ghost var a, y, v := Fout[..], Strided(f[..], fo, step), st.V(fstride);
    st.WorkStage(fstride, p, m, n);
    PlaceStart(a, o, y, v, p, m);
    if m == 1 {
      CopySamples(Fout, o, f, fo, step, p, v, n);
    } else {
      ghost var q := 0;
      var F, g, end := o, fo, o + p * m;
      while true
        invariant 0 <= q < p && F == o + q * m && g == fo + q * step
        invariant Fout.Length == |a| && Placed(a, Fout[..], o, y, v, p, m, q)
        decreases p - q
      {
        ghost var b := Fout[..];
        SubReadable(f.Length, fo, fstride, inStride, p, m, n, q);
        SubFits(p, m, n, q);
        KfWork(Fout, F, f, g, fstride * p, inStride, fi + 2, st, m);
        st.SubTransform(a, b, Fout[..], o, f[..], fo, fstride, inStride, p, m, q);
        g := g + step;
        F := F + m;
        q := q + 1;
        if F == end { break; }
      }
    }
    ghost var b := Fout[..];
    Recombine(Fout, o, fstride, st, m, p);
    RecombinedIsDft(a, b, Fout[..], o, y, v, p, m, n);
  }

  // ----- the entry points

  // b is the transform of the n samples of x, in either direction.
  ghost predicate IsDft(b: seq<Cpx>, x: int -> Cpx, w: int -> Cpx, n: nat) {
    |b| >= n && forall k :: 0 <= k < n ==> b[k] == Dft(x, w, n, k)
  }

  lemma WholeIsDft(a: seq<Cpx>, b: seq<Cpx>, x: int -> Cpx, v: int -> Cpx, w: int -> Cpx, n: nat)
    requires n <= |a| && Transformed(a, b, 0, x, v, n) && forall e: int :: v(e) == w(e)
    ensures IsDft(b, x, w, n)
  {
    hide Dft;
    forall k | 0 <= k < n ensures b[k] == Dft(x, w, n, k) {
      DftEq(x, x, v, w, n, k);
    }
  }

  method KissFftStride(st: KissFftState, fin: array<Cpx>, fout: array<Cpx>, inStride: int)
    requires st.Valid() && fout != st.twiddles
    requires fout.Length >= st.nfft && Readable(fin.Length, 0, inStride, st.nfft)
    modifies fout
    ensures IsDft(fout[..], Strided(old(fin[..]), 0, inStride), st.W(), st.nfft)
    ensures forall i :: st.nfft <= i < fout.Length ==> fout[i] == old(fout[i])
  {
    hide IsDft, Dft, Strided, Turns;
    ghost var a, x := fout[..], Strided(fin[..], 0, inStride);
    assert 1 * inStride == inStride && forall e: int :: st.V(1)(e) == st.W()(e);
    if fin == fout {
      var tmpbuf := new Cpx[st.nfft](i => ZERO);
      ghost var t := tmpbuf[..];
      KfWork(tmpbuf, 0, fin, 0, 1, inStride, 0, st, st.nfft);
      WholeIsDft(t, tmpbuf[..], x, st.V(1), st.W(), st.nfft);
      CopyBack(fout, tmpbuf);
      IsDftPrefix(tmpbuf[..], fout[..], x, st.W(), st.nfft);
    } else {
      KfWork(fout, 0, fin, 0, 1, inStride, 0, st, st.nfft);
      WholeIsDft(a, fout[..], x, st.V(1), st.W(), st.nfft);
    }
  }

  // The memcpy out of the temporary buffer.
  method CopyBack(fout: array<Cpx>, tmpbuf: array<Cpx>)
    requires fout != tmpbuf && tmpbuf.Length <= fout.Length
    modifies fout
    ensures fout[..] == tmpbuf[..] + old(fout[tmpbuf.Length..])
  {
    for i := 0 to tmpbuf.Length
      invariant fout[..i] == tmpbuf[..i] && fout[i..] == old(fout[i..])
    {
      fout[i] := tmpbuf[i];
    }
  }

  lemma IsDftPrefix(b: seq<Cpx>, c: seq<Cpx>, x: int -> Cpx, w: int -> Cpx, n: nat)
    requires IsDft(b, x, w, n) && |b| == n <= |c| && c[..n] == b
    ensures IsDft(c, x, w, n)
  {
    hide Dft;
    forall k | 0 <= k < n ensures c[k] == Dft(x, w, n, k) {
      assert c[..n][k] == b[k];
    }
  }

  method KissFft(cfg: KissFftState, fin: array<Cpx>, fout: array<Cpx>)
    requires cfg.Valid() && fout != cfg.twiddles
    requires fout.Length >= cfg.nfft && fin.Length >= cfg.nfft
    modifies fout
    ensures IsDft(fout[..], Strided(old(fin[..]), 0, 1), cfg.W(), cfg.nfft)
    ensures forall i :: cfg.nfft <= i < fout.Length ==> fout[i] == old(fout[i])
  {
    KissFftStride(cfg, fin, fout, 1);
  }

  // Forward and back multiplies by the length.
  lemma KissFftRoundTrip(cexp: real -> Cpx, n: Length, x: seq<Cpx>, y: seq<Cpx>, z: seq<Cpx>)
    requires CircleExp(cexp) && |x| >= n
    requires IsDft(y, Strided(x, 0, 1), Turns(cexp, n, false), n)
    requires IsDft(z, Strided(y, 0, 1), Turns(cexp, n, true), n)
    ensures forall j :: 0 <= j < n ==> z[j] == Scale(n as real, x[j])
  {
    hide CircleExp, Mul, Scale, Dft, IsRoot;
    var w, u := Turns(cexp, n, false), Turns(cexp, n, true);
    TurnsIsRoot(cexp, n, false);
    forall a: int ensures u(a) == Opposite(w)(a) {
      TurnsOpposite(cexp, n, a);
    }
    hide Turns;
    forall j | 0 <= j < n ensures z[j] == Scale(n as real, x[j]) {
      DftEq(Strided(y, 0, 1), Strided(y, 0, 1), u, Opposite(w), n, j);
      Inversion(Strided(x, 0, 1), Strided(y, 0, 1), w, n, j);
    }
  }
}
