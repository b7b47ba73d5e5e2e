/** The real transforms of kiss_fftr.c over arrays. */
module Fftr {
  import opened Complex
  import opened Roots
  import opened Circle
  import opened Fourier
  import opened Butterflies
  import opened RealFourier
  import opened Fft

  // A real buffer as a complex signal.
  ghost function RealView(t: seq<real>): int -> Cpx {
    j => Cpx(if 0 <= j < |t| then t[j] else 0.0, 0.0)
  }

  lemma HalfRatio(a: int, n: int)
    requires n >= 1
    ensures Ratio(a, 2 * n) == 0.5 * Ratio(a, n)
  {
    var x, y := a as real / n as real, (2 * n) as real;
    assert y == 2.0 * n as real && x * n as real == a as real;
    assert (0.5 * x) * y == x * n as real;
    QuotientUnique(a as real, y, 0.5 * x);
  }

  // A super-twiddle is a twiddle of twice the length turned a quarter further.
  lemma SuperTwiddle(cexp: real -> Cpx, n: int, inverse: bool, k: int, phase: real)
    requires CircleExp(cexp) && n >= 1
    requires phase == (if inverse then 0.5 else -0.5) * (Ratio(k, n) + 0.5)
    ensures cexp(phase) == Mul(Turns(cexp, 2 * n, inverse)(k), if inverse then I else Conj(I))
  {
    hide CircleExp, Mul, Ratio;
    HalfRatio(k, n);
    Quarter(cexp);
    AddAt(cexp, Phase(k, 2 * n, inverse), if inverse then 0.25 else -0.25, phase);
  }

  lemma TurnsHalfRoot(cexp: real -> Cpx, n: int, inverse: bool)
    requires CircleExp(cexp) && n >= 1
    ensures HalfRoot(Turns(cexp, n, inverse), Turns(cexp, 2 * n, inverse), n)
  {
    hide CircleExp, IsRoot;
    TurnsIsRoot(cexp, n, inverse);
    TurnsIsRoot(cexp, 2 * n, inverse);
    forall a: int ensures Turns(cexp, n, inverse)(a) == Turns(cexp, 2 * n, inverse)(2 * a) {
      TurnsHalf(cexp, n, inverse, a);
    }
  }

  method FillSuperTwiddles(superTwiddles: array<Cpx>, ncfft: int, inverse: bool, cexp: real -> Cpx)
    requires ncfft >= 1 && CircleExp(cexp)
    modifies superTwiddles
    ensures forall i :: 0 <= i < superTwiddles.Length ==>
              superTwiddles[i] == Mul(Turns(cexp, 2 * ncfft, inverse)(i + 1), if inverse then I else Conj(I))
  {
    hide CircleExp, Mul, Ratio, Turns;
    for i := 0 to superTwiddles.Length
      invariant forall j :: 0 <= j < i ==>
                  superTwiddles[j] == Mul(Turns(cexp, 2 * ncfft, inverse)(j + 1), if inverse then I else Conj(I))
    {
      var phase := -0.5 * (Ratio(i + 1, ncfft) + 0.5);
      if inverse { phase := phase * -1.0; }
      SuperTwiddle(cexp, ncfft, inverse, i + 1, phase);
      superTwiddles[i] := cexp(phase);
    }
  }

  class KissFftrState {
    const substate: KissFftState
    const tmpbuf: array<Cpx>
    const superTwiddles: array<Cpx>

    ghost function W2(): int -> Cpx {
      Turns(substate.cexp, 2 * substate.nfft, substate.inverse)
    }

    ghost function QuarterTurn(): Cpx {
      if substate.inverse then I else Conj(I)
    }

    ghost predicate Valid()
      reads substate.factors, substate.twiddles, superTwiddles
    {
      && substate.Valid()
      && tmpbuf.Length == substate.nfft && superTwiddles.Length == substate.nfft / 2
      && tmpbuf != superTwiddles && tmpbuf != substate.twiddles
      && forall i :: 0 <= i < superTwiddles.Length ==> superTwiddles[i] == Mul(W2()(i + 1), QuarterTurn())
    }

    constructor (ncfft: Length, inverse: bool, cexp: real -> Cpx)
      requires ncfft < 0x8000_0000 && CircleExp(cexp)
      ensures substate.nfft == ncfft && substate.inverse == inverse && substate.cexp == cexp
      ensures tmpbuf != superTwiddles && tmpbuf != substate.twiddles
      ensures Valid() && fresh(tmpbuf) && fresh(superTwiddles) && fresh(substate.twiddles) && fresh(substate.factors)
    {
      substate := new KissFftState(ncfft, inverse, cexp);
      tmpbuf := new Cpx[ncfft](i => ZERO);
      superTwiddles := new Cpx[ncfft / 2](i => ZERO);
      new;
      hide CircleExp, Mul, Turns, KissFftState.Valid;
      FillSuperTwiddles(superTwiddles, ncfft, inverse, cexp);
    }

    // kiss_fftr_alloc: an odd length is refused.
    static method KissFftrAlloc(nfft: int, inverse: bool, cexp: real -> Cpx) returns (st: KissFftrState?)
      requires 1 <= nfft < 0x8000_0000 && CircleExp(cexp)
      ensures st == null <==> nfft % 2 == 1
      ensures st != null ==> fresh(st) && st.Valid() && fresh(st.tmpbuf) && fresh(st.superTwiddles)
      ensures st != null ==> fresh(st.substate.twiddles) && fresh(st.substate.factors)
      ensures st != null ==> 2 * st.substate.nfft == nfft && st.substate.inverse == inverse && st.substate.cexp == cexp
    {
      if nfft % 2 == 1 { return null; }
      st := new KissFftrState(nfft / 2, inverse, cexp);
    }

    lemma SuperAt(k: int)
      requires Valid() && 1 <= k <= substate.nfft / 2
      ensures superTwiddles[k - 1] == Mul(W2()(k), QuarterTurn())
    {}
  }

  // What the cast of the real buffer to complex reads: pairs of neighbours.
  method AsComplex(timedata: array<real>, n: nat) returns (z: array<Cpx>)
    requires timedata.Length >= 2 * n
    ensures fresh(z) && z.Length == n
    ensures forall j :: 0 <= j < n ==> z[j] == Cpx(timedata[2 * j], timedata[2 * j + 1])
  {
    z := new Cpx[n](i => ZERO);
    for k := 0 to n
      invariant forall j :: 0 <= j < k ==> z[j] == Cpx(timedata[2 * j], timedata[2 * j + 1])
    {
      z[k] := Cpx(timedata[2 * k], timedata[2 * k + 1]);
    }
  }

  // And what the cast of the real buffer writes.
  method AsReals(z: array<Cpx>, timedata: array<real>, n: nat)
    requires z.Length >= n && timedata.Length >= 2 * n
    modifies timedata
    ensures forall j :: 0 <= j < 2 * n ==> timedata[j] == if j % 2 == 0 then z[j / 2].r else z[j / 2].i
    ensures forall j :: 2 * n <= j < timedata.Length ==> timedata[j] == old(timedata[j])
  {
    for k := 0 to n
      invariant forall j :: 0 <= j < 2 * k ==> timedata[j] == if j % 2 == 0 then z[j / 2].r else z[j / 2].i
      invariant forall j :: 2 * k <= j < timedata.Length ==> timedata[j] == old(timedata[j])
    {
      timedata[2 * k] := z[k].r;
      timedata[2 * k + 1] := z[k].i;
    }
  }

  // Bins 0..n of b are those of the real signal x of length 2n.
  ghost predicate IsHalfSpectrum(b: seq<Cpx>, x: int -> Cpx, w2: int -> Cpx, n: nat) {
    |b| >= n + 1 && forall k :: 0 <= k <= n ==> b[k] == Dft(x, w2, 2 * n, k)
  }

  lemma PackedView(t: seq<real>, z: seq<Cpx>, b: seq<Cpx>, w: int -> Cpx, n: nat)
    requires |t| >= 2 * n && |z| == n
    requires forall j :: 0 <= j < n ==> z[j] == Cpx(t[2 * j], t[2 * j + 1])
    requires IsDft(b, Strided(z, 0, 1), w, n)
    ensures IsDft(b, Packed(RealView(t)), w, n)
    ensures RealSignal(RealView(t), 2 * n)
  {
    hide Dft;
    forall k | 0 <= k < n ensures b[k] == Dft(Packed(RealView(t)), w, n, k) {
      DftEq(Strided(z, 0, 1), Packed(RealView(t)), w, w, n, k);
    }
  }

  // One turn of the loop: bins k and n-k, which may be the same.
  method UnpackPair(st: KissFftrState, freqdata: array<Cpx>, k: int, ghost x: int -> Cpx, ghost w: int -> Cpx)
    requires st.Valid() && !st.substate.inverse && 1 <= k <= st.substate.nfft / 2
    requires freqdata.Length >= st.substate.nfft + 1 && freqdata != st.tmpbuf
    requires HalfRoot(w, st.W2(), st.substate.nfft) && RealSignal(x, 2 * st.substate.nfft)
    requires IsDft(st.tmpbuf[..], Packed(x), w, st.substate.nfft)
    modifies freqdata
    ensures var n: int := st.substate.nfft;
      freqdata[..] == old(freqdata[..])[k := Dft(x, st.W2(), 2 * n, k)][n - k := Dft(x, st.W2(), 2 * n, n - k)]
  {
    hide Mul, Add, Sub, Conj, CircleExp, HalfRoot, Turns, Dft, IsRoot, RealSignal, Packed, KissFftState.Valid;
    var ncfft: int := st.substate.nfft;
    var fpk := st.tmpbuf[k];
    var fpnk := Conj(st.tmpbuf[ncfft - k]);
    var f1k := Add(fpk, fpnk);
    var f2k := Sub(fpk, fpnk);
    st.SuperAt(k);
    var tw := Mul(f2k, st.superTwiddles[k - 1]);
    ForwardBins(x, w, st.W2(), ncfft, k, fpk, st.tmpbuf[ncfft - k], st.superTwiddles[k - 1]);
    freqdata[k] := Cpx((f1k.r + tw.r) * 0.5, (f1k.i + tw.i) * 0.5);
    freqdata[ncfft - k] := Cpx((f1k.r - tw.r) * 0.5, (tw.i - f1k.i) * 0.5);
  }

  method KissFftr(st: KissFftrState, timedata: array<real>, freqdata: array<Cpx>)
    requires st.Valid() && !st.substate.inverse
    requires timedata.Length >= 2 * st.substate.nfft && freqdata.Length >= st.substate.nfft + 1
    requires freqdata != st.tmpbuf && freqdata != st.superTwiddles && freqdata != st.substate.twiddles
    modifies freqdata, st.tmpbuf
    ensures IsHalfSpectrum(freqdata[..], RealView(timedata[..]), st.W2(), st.substate.nfft)
    ensures forall i :: st.substate.nfft < i < freqdata.Length ==> freqdata[i] == old(freqdata[i])
  {
    hide Mul, Add, Sub, Conj, CircleExp, HalfRoot, Turns, Dft, IsRoot, RealSignal, RealView, Strided, Packed,
         KissFftState.Valid;
    var ncfft: int := st.substate.nfft;
    ghost var x, w, w2 := RealView(timedata[..]), st.substate.W(), st.W2();
    var packed := AsComplex(timedata, ncfft);
    KissFft(st.substate, packed, st.tmpbuf);
    PackedView(timedata[..], packed[..], st.tmpbuf[..], w, ncfft);
    st.substate.ValidCircle();
    TurnsHalfRoot(st.substate.cexp, ncfft, false);
    ghost var z := st.tmpbuf[..];
    var tdc := st.tmpbuf[0];
    ForwardEnds(x, w, w2, ncfft, tdc);
    freqdata[0] := Cpx(tdc.r + tdc.i, 0.0);
    freqdata[ncfft] := Cpx(tdc.r - tdc.i, 0.0);
    var k := 1;
    while k <= ncfft / 2
      invariant 1 <= k <= ncfft / 2 + 1
      invariant st.tmpbuf[..] == z
      invariant forall i :: 0 <= i <= ncfft && (i < k || i > ncfft - k) ==> freqdata[i] == Dft(x, w2, 2 * ncfft, i)
      invariant forall i :: ncfft < i < freqdata.Length ==> freqdata[i] == old(freqdata[i])
    {
      UnpackPair(st, freqdata, k, x, w);
      k := k + 1;
    }
  }

  // ----- back

  // What the inverse makes of the bins 0..n of f: the 2n samples whose spectrum,
  // scaled by 2n, is the conjugate-symmetric extension of f.
  ghost function InverseReal(f: seq<Cpx>, u2: int -> Cpx, n: nat, j: int): real {
    Dft(Hermitian(Strided(f, 0, 1), n), u2, 2 * n, j).r
  }

  // The bins the inverse has repacked so far, from both ends inwards.
  ghost predicate RepackedTo(b: seq<Cpx>, h: int -> Cpx, u2: int -> Cpx, n: nat, k: int) {
    |b| == n && forall i :: 0 <= i < n && (i < k || i > n - k) ==> b[i] == Repacked(h, u2, n)(i)
  }

  // The even output in the real part, the odd one in the imaginary part.
  lemma UnpackOutput(f: seq<Cpx>, b: seq<Cpx>, z: seq<Cpx>, u: int -> Cpx, u2: int -> Cpx, n: nat, j: int)
    requires HalfRoot(u, u2, n) && 0 <= j < n
    requires RepackedTo(b, Hermitian(Strided(f, 0, 1), n), u2, n, n)
    requires IsDft(z, Strided(b, 0, 1), u, n)
    ensures z[j] == Cpx(InverseReal(f, u2, n, 2 * j), InverseReal(f, u2, n, 2 * j + 1))
  {
    var g := Strided(f, 0, 1);
    var h := Hermitian(g, n);
    var t0, t1 := Dft(h, u2, 2 * n, 2 * j), Dft(h, u2, 2 * n, 2 * j + 1);
    PairOfReals(t0, t1);
    hide Mul, Add, IsRoot, Hermitian, Repacked, Dft;
    DftEq(Strided(b, 0, 1), Repacked(h, u2, n), u, u, n, j);
    RepackedOutput(h, u, u2, n, j);
    HermitianReal(g, u2, n, 2 * j);
    HermitianReal(g, u2, n, 2 * j + 1);
  }

  lemma PairOfReals(a: Cpx, b: Cpx)
    ensures a.i == 0.0 && b.i == 0.0 ==> Add(a, Mul(I, b)) == Cpx(a.r, b.r)
  {}

  // One turn of the loop: packed bins k and n-k, which may be the same.
  method RepackPair(st: KissFftrState, freqdata: array<Cpx>, k: int, ghost h: int -> Cpx)
    requires st.Valid() && st.substate.inverse && 1 <= k <= st.substate.nfft / 2
    requires freqdata.Length >= st.substate.nfft + 1 && freqdata != st.tmpbuf
    requires IsRoot(st.W2(), 2 * st.substate.nfft)
    requires h == Hermitian(Strided(freqdata[..], 0, 1), st.substate.nfft)
    requires RepackedTo(st.tmpbuf[..], h, st.W2(), st.substate.nfft, k)
    modifies st.tmpbuf
    ensures st.Valid()
    ensures RepackedTo(st.tmpbuf[..], h, st.W2(), st.substate.nfft, k + 1)
  {
    hide Mul, Add, Sub, CircleExp, HalfRoot, Turns, Dft, IsRoot, KissFftState.Valid, Hermitian, Repacked;
    var ncfft: int := st.substate.nfft;
    ghost var f := Strided(freqdata[..], 0, 1);
    var fk := freqdata[k];
    var fnkc := Conj(freqdata[ncfft - k]);
    var fek := Add(fk, fnkc);
    var tmp := Sub(fk, fnkc);
    st.SuperAt(k);
    var fok := Mul(tmp, st.superTwiddles[k - 1]);
    BackwardBins(f, st.W2(), ncfft, k);
    st.tmpbuf[k] := Add(fek, fok);
    st.tmpbuf[ncfft - k] := Sub(fek, fok);
    st.tmpbuf[ncfft - k] := Cpx(st.tmpbuf[ncfft - k].r, st.tmpbuf[ncfft - k].i * -1.0);
  }

  method KissFftri(st: KissFftrState, freqdata: array<Cpx>, timedata: array<real>)
    requires st.Valid() && st.substate.inverse
    requires freqdata.Length >= st.substate.nfft + 1 && timedata.Length >= 2 * st.substate.nfft
    requires freqdata != st.tmpbuf
    modifies timedata, st.tmpbuf
    ensures forall j :: 0 <= j < 2 * st.substate.nfft ==>
              timedata[j] == InverseReal(freqdata[..], st.W2(), st.substate.nfft, j)
    ensures forall j :: 2 * st.substate.nfft <= j < timedata.Length ==> timedata[j] == old(timedata[j])
  {
    hide Mul, CircleExp, HalfRoot, Turns, Dft, IsRoot, KissFftState.Valid, Hermitian, Repacked, InverseReal, IsDft;
    var ncfft: int := st.substate.nfft;
    ghost var f, u, u2 := Strided(freqdata[..], 0, 1), st.substate.W(), st.W2();
    ghost var h := Hermitian(f, ncfft);
    st.substate.ValidCircle();
    TurnsHalfRoot(st.substate.cexp, ncfft, true);
    assert IsRoot(u2, 2 * ncfft) by { HalfRootIsRoot(u, u2, ncfft); }
    BackwardEnds(f, u2, ncfft);
    st.tmpbuf[0] := Cpx(freqdata[0].r + freqdata[ncfft].r, freqdata[0].r - freqdata[ncfft].r);
    var k := 1;
    while k <= ncfft / 2
      invariant 1 <= k <= ncfft / 2 + 1
      invariant RepackedTo(st.tmpbuf[..], h, u2, ncfft, k)
      invariant timedata[..] == old(timedata[..])
    {
      RepackPair(st, freqdata, k, h);
      k := k + 1;
    }
    ghost var b := st.tmpbuf[..];
    assert RepackedTo(b, h, u2, ncfft, ncfft);
    var out := new Cpx[ncfft](i => ZERO);
    KissFft(st.substate, st.tmpbuf, out);
    AsReals(out, timedata, ncfft);
    forall j | 0 <= j < 2 * ncfft ensures timedata[j] == InverseReal(freqdata[..], u2, ncfft, j) {
      UnpackOutput(freqdata[..], b, out[..], u, u2, ncfft, j / 2);
    }
  }

  lemma HalfRootIsRoot(w: int -> Cpx, w2: int -> Cpx, n: nat)
    requires HalfRoot(w, w2, n)
    ensures IsRoot(w2, 2 * n)
  {}

  // kiss_fftri after kiss_fftr multiplies every sample by the length 2n.
  lemma RealRoundTrip(cexp: real -> Cpx, n: int, t: seq<real>, f: seq<Cpx>, j: int)
    requires CircleExp(cexp) && n >= 1 && |t| >= 2 * n && 0 <= j < 2 * n
    requires IsHalfSpectrum(f, RealView(t), Turns(cexp, 2 * n, false), n)
    ensures InverseReal(f, Turns(cexp, 2 * n, true), n, j) == (2 * n) as real * t[j]
  {
    hide CircleExp, Mul, Dft, IsRoot, Hermitian;
    var x, w2, u2 := RealView(t), Turns(cexp, 2 * n, false), Turns(cexp, 2 * n, true);
    var g := Strided(f, 0, 1);
    var h := Hermitian(g, n);
    TurnsIsRoot(cexp, 2 * n, false);
    forall a: int ensures u2(a) == Opposite(w2)(a) {
      TurnsOpposite(cexp, 2 * n, a);
    }
    hide Turns;
    forall k | 0 <= k < 2 * n ensures h(k) == Dft(x, w2, 2 * n, k) {
      SpectrumHermitian(x, g, w2, n, k);
    }
    DftEq(h, h, u2, Opposite(w2), 2 * n, j);
    Inversion(x, h, w2, 2 * n, j);
  }
}
