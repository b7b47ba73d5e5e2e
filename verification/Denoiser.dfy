/** The block-threshold denoiser's stream: internal buffers, macro blocks and the final flush. */
module Denoiser {
  import opened Arith
  import opened Complex
  import opened Circle
  import opened Fourier
  import opened Fft
  import opened Fftr
  import opened OverlapAdd

  datatype Code = ErrorParams | NeedMoreSamples | CanOutput

  // ----- what the loops over the buffers do

  // The upper half moves down.
  method SlideDown(inbuf: array<real>, half: nat)
    requires inbuf.Length == 2 * half
    modifies inbuf
    ensures forall i :: 0 <= i < half ==> inbuf[i] == old(inbuf[half + i])
  {
    for j := 0 to half
      invariant forall i :: 0 <= i < j ==> inbuf[i] == old(inbuf[half + i])
      invariant forall i {:trigger inbuf[i]} :: half <= i < inbuf.Length ==> inbuf[i] == old(inbuf[i])
    {
      inbuf[j] := inbuf[half + j];
    }
  }

  method FillUpper(inbuf: array<real>, input: array<real>)
    requires inbuf != input && inbuf.Length == 2 * input.Length
    modifies inbuf
    ensures inbuf[..input.Length] == old(inbuf[..input.Length]) && inbuf[input.Length..] == input[..]
  {
    var half := input.Length;
    for j := 0 to half
      invariant inbuf[..half] == old(inbuf[..half]) && inbuf[half..half + j] == input[..j]
    {
      inbuf[half + j] := input[j];
    }
  }

  // The two memcpy calls that slide a new hop into the input buffer.
  method ShiftIn(inbuf: array<real>, input: array<real>)
    requires inbuf != input && inbuf.Length == 2 * input.Length
    modifies inbuf
    ensures inbuf[..] == old(inbuf[input.Length..]) + input[..]
  {
    ghost var late := inbuf[input.Length..];
    SlideDown(inbuf, input.Length);
    assert inbuf[..input.Length] == late;
    FillUpper(inbuf, input);
    assert inbuf[..] == inbuf[..input.Length] + inbuf[input.Length..];
  }

  method ApplyWindow(inbuf: array<real>, win: seq<real>, inbufWin: array<real>)
    requires inbuf != inbufWin && inbuf.Length == inbufWin.Length == |win|
    modifies inbufWin
    ensures forall j :: 0 <= j < |win| ==> inbufWin[j] == inbuf[j] * win[j]
  {
    for i := 0 to |win|
      invariant forall j :: 0 <= j < i ==> inbufWin[j] == inbuf[j] * win[j]
    {
      inbufWin[i] := inbuf[i] * win[i];
    }
  }

  // The last half window becomes the first; the rest is cleared.
  method ShiftOut(outbuf: array<real>, macroSize: nat, half: nat)
    requires outbuf.Length == macroSize + half && half <= macroSize
    modifies outbuf
    ensures forall s :: 0 <= s < outbuf.Length ==> outbuf[s] == if s < half then old(outbuf[macroSize + s]) else 0.0
  {
    for s := 0 to half
      invariant forall i :: 0 <= i < s ==> outbuf[i] == old(outbuf[macroSize + i])
      invariant forall i :: half <= i < outbuf.Length ==> outbuf[i] == old(outbuf[i])
    {
      outbuf[s] := outbuf[macroSize + s];
    }
    for s := half to outbuf.Length
      invariant forall i :: 0 <= i < half ==> outbuf[i] == old(outbuf[macroSize + i])
      invariant forall i :: half <= i < s ==> outbuf[i] == 0.0
    {
      outbuf[s] := 0.0;
    }
  }

  // Adds one synthesised frame, divided by the window size, from cell `at` on.
  method AddFrame(outbuf: array<real>, frame: array<real>, at: nat)
    requires outbuf != frame && frame.Length >= 1 && at + frame.Length <= outbuf.Length
    modifies outbuf
    ensures forall s :: 0 <= s < outbuf.Length ==>
              outbuf[s] == old(outbuf[s]) + if at <= s < at + frame.Length
                                            then frame[s - at] / frame.Length as real else 0.0
  {
    for j := 0 to frame.Length
      invariant forall s :: 0 <= s < outbuf.Length ==>
                  outbuf[s] == old(outbuf[s]) + if at <= s < at + j then frame[s - at] / frame.Length as real else 0.0
    {
      outbuf[at + j] := outbuf[at + j] + frame[j] / frame.Length as real;
    }
  }

  method AllocRows(n: nat, length: nat) returns (rows: seq<array<Cpx>>)
    ensures |rows| == n
    ensures forall r :: 0 <= r < n ==> fresh(rows[r]) && rows[r].Length == length
    ensures forall r, q :: 0 <= r < q < n ==> rows[r] != rows[q]
  {
    rows := [];
    for k := 0 to n
      invariant |rows| == k
      invariant forall r :: 0 <= r < k ==> fresh(rows[r]) && rows[r].Length == length
      invariant forall r, q :: 0 <= r < q < k ==> rows[r] != rows[q]
    {
      var row := new Cpx[length](i => ZERO);
      rows := rows + [row];
    }
  }

  method StoreRow(dst: array<Cpx>, src: Row)
    requires dst.Length == |src|
    modifies dst
    ensures dst[..] == src
  {
    for i := 0 to |src|
      invariant dst[..i] == src[..i]
    {
      dst[i] := src[i];
    }
  }

  method CopyOut(src: array<real>, dst: array<real>, n: nat)
    requires src != dst && n <= src.Length && n <= dst.Length
    modifies dst
    ensures dst[..n] == src[..n]
    ensures forall i :: n <= i < dst.Length ==> dst[i] == old(dst[i])
  {
    for j := 0 to n
      invariant dst[..j] == src[..j]
      invariant forall i :: j <= i < dst.Length ==> dst[i] == old(dst[i])
    {
      dst[j] := src[j];
    }
  }

  method Load(dst: array<real>, src: seq<real>)
    requires dst.Length == |src|
    modifies dst
    ensures dst[..] == src
  {
    for j := 0 to |src|
      invariant dst[..j] == src[..j]
    {
      dst[j] := src[j];
    }
  }

  method Clear(a: array<real>)
    modifies a
    ensures forall i :: 0 <= i < a.Length ==> a[i] == 0.0
  {
    for j := 0 to a.Length
      invariant forall i :: 0 <= i < j ==> a[i] == 0.0
    {
      a[j] := 0.0;
    }
  }

  lemma NextSlice(x: seq<real>, pos: nat, n: nat)
    requires pos + n <= |x|
    ensures x[..pos] + x[pos..pos + n] == x[..pos + n] && x[..pos] <= x
  {}

  lemma HopAfter(n: nat, half: nat)
    ensures n * half + half == (n + 1) * half
  {}

  class MarsBlockThreshold {
    const half: nat
    const win: seq<real>
    const core: seq<Row> -> seq<Row>
    ghost const cexp: real -> Cpx

    const inbuf: array<real>
    const inbufWin: array<real>
    const outbuf: array<real>
    const stftCoef: seq<array<Cpx>>
    const forward: KissFftrState
    const backward: KissFftrState
    var haveNblkTime: nat

    // The input taken in so far, and the macro blocks finished.
    ghost var consumed: seq<real>
    ghost var blocks: nat

    ghost function Model(): Setup {
      Setup(half, win, cexp, core)
    }

    ghost predicate Shapes() {
      && Model().Ok()
      && inbuf.Length == inbufWin.Length == 2 * half && outbuf.Length == GROUP * half + half
      && inbuf != inbufWin && inbuf != outbuf && inbufWin != outbuf
      && |stftCoef| == GROUP
      && (forall r :: 0 <= r < GROUP ==> stftCoef[r].Length == half + 1)
      && (forall r, q :: 0 <= r < q < GROUP ==> stftCoef[r] != stftCoef[q])
      && (forall r :: 0 <= r < GROUP ==> Apart(stftCoef[r], forward) && Apart(stftCoef[r], backward))
      && forward.substate.nfft == half && !forward.substate.inverse && forward.substate.cexp == cexp
      && backward.substate.nfft == half && backward.substate.inverse && backward.substate.cexp == cexp
      && forward.tmpbuf != backward.tmpbuf && Scratch(forward) && Scratch(backward)
      && Apart(forward.tmpbuf, backward) && Apart(backward.tmpbuf, forward)
    }

    // A buffer no transform configuration owns, other than its own scratch buffer.
    ghost predicate Apart(a: array<Cpx>, cfg: KissFftrState) {
      a != cfg.tmpbuf && a != cfg.superTwiddles && a != cfg.substate.twiddles
    }

    ghost predicate Scratch(cfg: KissFftrState) {
      cfg.tmpbuf != cfg.superTwiddles && cfg.tmpbuf != cfg.substate.twiddles
    }

    ghost predicate Configured()
      reads forward.substate.factors, forward.substate.twiddles, forward.superTwiddles
      reads backward.substate.factors, backward.substate.twiddles, backward.superTwiddles
    {
      forward.Valid() && backward.Valid()
    }

    // The rows of stftCoef hold the given values from row 0 on.
    ghost predicate RowsAre(rows: seq<Row>)
      reads stftCoef
    {
      |rows| <= |stftCoef| && forall r :: 0 <= r < |rows| ==> stftCoef[r][..] == rows[r]
    }

    ghost predicate OutbufIs(fs: seq<seq<real>>, base: int)
      reads outbuf
    {
      forall s :: 0 <= s < outbuf.Length ==> outbuf[s] == Model().Ola(fs, base + s)
    }

    ghost predicate InbufIs(x: seq<real>, n: int)
      reads inbuf
    {
      forall j :: 0 <= j < inbuf.Length ==> inbuf[j] == Model().Sample(x, (n - 2) * half + j)
    }

    // Hops taken in so far.
    ghost function Hops(): nat
      reads this
    {
      blocks * GROUP + haveNblkTime
    }

    // Between the arrival of a block's last frame and its synthesis all eight rows are full.
    ghost predicate Consistent()
      reads this, inbuf, outbuf, stftCoef
      reads forward.substate.factors, forward.substate.twiddles, forward.superTwiddles
      reads backward.substate.factors, backward.substate.twiddles, backward.superTwiddles
    {
      && Shapes() && Configured()
      && haveNblkTime <= GROUP && |consumed| == Hops() * half
      && InbufIs(consumed, Hops())
      && RowsAre(Pending())
      && OutbufIs(Model().Frames(consumed, blocks * GROUP), blocks * GROUP * half - GROUP * half)
    }

    ghost predicate Valid()
      reads this, inbuf, outbuf, stftCoef
      reads forward.substate.factors, forward.substate.twiddles, forward.superTwiddles
      reads backward.substate.factors, backward.substate.twiddles, backward.superTwiddles
    {
      Consistent() && haveNblkTime < GROUP
    }

    // The analysed frames of the block being filled.
    ghost function Pending(): (rows: seq<Row>)
      requires Model().Ok()
      reads this
      ensures |rows| == haveNblkTime
    {
      Model().GroupRows(consumed, blocks, haveNblkTime)
    }

    // blockThreshold_init, once the parameters are known to be good; the window and the
    // spectral stage are given.
    constructor (half: nat, win: seq<real>, core: seq<Row> -> seq<Row>, cexp: real -> Cpx)
      requires 1 <= half < 0x8000_0000 && Setup(half, win, cexp, core).Ok()
      ensures Valid() && consumed == [] && blocks == haveNblkTime == 0
      ensures this.half == half && this.win == win && this.core == core && this.cexp == cexp
      ensures fresh(inbuf) && fresh(inbufWin) && fresh(outbuf) && fresh(forward.tmpbuf) && fresh(backward.tmpbuf)
      ensures forall r :: 0 <= r < GROUP ==> fresh(stftCoef[r])
    {
      hide CircleExp, KeepsShape, KissFftrState.Valid, Setup.Ola, Setup.Sample, Setup.Frames, Setup.GroupRow,
           Consistent;
      this.half, this.win, this.core, this.cexp := half, win, core, cexp;
      forward := new KissFftrState(half, false, cexp);
      backward := new KissFftrState(half, true, cexp);
      inbuf := new real[2 * half](i => 0.0);
      inbufWin := new real[2 * half](i => 0.0);
      outbuf := new real[GROUP * half + half](i => 0.0);
      var rows := AllocRows(GROUP, half + 1);
      stftCoef := rows;
      haveNblkTime := 0;
      consumed, blocks := [], 0;
      new;
      assert Shapes();
      StartValid();
    }

    lemma StartValid()
      requires Shapes() && Configured() && consumed == [] && blocks == haveNblkTime == 0
      requires forall j :: 0 <= j < inbuf.Length ==> inbuf[j] == 0.0
      requires forall j :: 0 <= j < outbuf.Length ==> outbuf[j] == 0.0
      ensures Valid()
    {
      hide CircleExp, KeepsShape, Setup.Ola, Setup.Sample, Setup.Frames, Setup.GroupRow, KissFftrState.Valid;
      Model().SilentBefore();
    }

    lemma BufferFacts()
      requires Shapes()
      ensures Model().Ok() && inbuf.Length == 2 * half
      ensures inbuf != inbufWin && inbuf != outbuf && inbufWin != outbuf
      ensures |stftCoef| == GROUP
    {}

    // blockThreshold_STFT: the next row becomes the half spectrum of the windowed buffer.
    method Stft(ghost x: seq<real>, ghost i: int, ghost rows: seq<Row>)
      requires Shapes() && Configured() && haveNblkTime < GROUP && InbufIs(x, i + 1)
      requires |rows| == haveNblkTime && RowsAre(rows)
      modifies inbufWin, stftCoef[haveNblkTime], forward.tmpbuf
      ensures Configured()
      ensures RowsAre(rows + [Model().Analysed(x, i)])
    {
      hide CircleExp, KeepsShape, KissFftrState.Valid, Turns, Dft, RealView, Setup.Sample;
      ApplyWindow(inbuf, win, inbufWin);
      Model().WindowedIs(x, i, inbuf[..], inbufWin[..]);
      KissFftr(forward, inbufWin, stftCoef[haveNblkTime]);
      assert stftCoef[haveNblkTime][..] == Model().Analysed(x, i);
    }

    // One turn of the synthesis loop: inverse transform, divide, add at hop r of the block.
    method SynthesiseRow(r: nat, ghost row: Row, ghost fs: seq<seq<real>>, ghost base: int)
      requires Shapes() && Configured() && r < GROUP && stftCoef[r][..] == row
      requires OutbufIs(fs, base) && base == (|fs| - r) * half
      modifies outbuf, inbufWin, backward.tmpbuf
      ensures Configured()
      ensures OutbufIs(fs + [Model().Synthesised(row)], base)
    {
      hide CircleExp, KeepsShape, KissFftrState.Valid, Turns, Setup.Ola, Setup.Synthesised, InverseReal;
      RowPlace(r);
      KissFftri(backward, stftCoef[r], inbufWin);
      ghost var f := Model().Synthesised(row);
      forall j | 0 <= j < 2 * half ensures inbufWin[j] / (2 * half) as real == f[j] {
        Model().SynthesisedAt(row, j);
      }
      AddFrame(outbuf, inbufWin, half * r);
      forall s | 0 <= s < outbuf.Length
        ensures outbuf[s] == Model().Ola(fs + [f], base + s)
      {
        Model().OlaCell(fs, f, base, r, s);
      }
    }

    lemma RowPlace(r: nat)
      requires r < GROUP
      ensures 0 <= half * r && half * r + 2 * half <= GROUP * half + half
    {
      MulMono(half, r, GROUP - 1);
    }

    // The loop shared by the block's inverse transform and the flush.
    method Synthesise(count: nat, ghost rows: seq<Row>, ghost fs: seq<seq<real>>)
      requires Shapes() && Configured() && count == |rows| <= GROUP && RowsAre(rows) && Model().Whole(fs)
      requires OutbufIs(fs, |fs| * half - GROUP * half)
      modifies outbuf, inbufWin, backward.tmpbuf
      ensures Configured()
      ensures OutbufIs(fs + Model().AllSynthesised(rows), |fs| * half)
    {
      hide CircleExp, KeepsShape, KissFftrState.Valid, Setup.Ola, Setup.Synthesised;
      ghost var base := |fs| * half;
      ShiftOut(outbuf, GROUP * half, half);
      forall s | 0 <= s < outbuf.Length ensures outbuf[s] == Model().Ola(fs, base + s) {
        if s >= half {
          Model().HopStep(|fs|);
          Model().OlaBeyond(fs, base + s);
        }
      }
      ghost var gs := Model().AllSynthesised(rows);
      assert fs + gs[..0] == fs;
      for i := 0 to count
        invariant Configured()
        invariant RowsAre(rows)
        invariant OutbufIs(fs + gs[..i], base)
      {
        SynthesiseRow(i, rows[i], fs + gs[..i], base);
        assert fs + gs[..i] + [gs[i]] == fs + gs[..i + 1];
      }
      assert gs[..count] == gs;
    }

    // The spectral stage rewrites the eight rows.
    method Core(ghost rows: seq<Row>)
      requires Shapes() && Configured() && RowsAre(rows) && |rows| == GROUP
      modifies stftCoef
      ensures Configured()
      ensures RowsAre(core(rows)) && |core(rows)| == GROUP
    {
      hide CircleExp, KissFftrState.Valid;
      var coefs := [];
      for r := 0 to GROUP
        invariant coefs == rows[..r]
      {
        coefs := coefs + [stftCoef[r][..]];
      }
      assert coefs == rows && IsGroup(rows, half);
      var news := core(coefs);
      assert IsGroup(news, half);
      for r := 0 to GROUP
        invariant Configured()
        invariant forall q :: 0 <= q < r ==> stftCoef[q][..] == news[q]
      {
        StoreRow(stftCoef[r], news[r]);
      }
    }

    // The first half of blockThreshold_denoise_float: slide the hop in and analyse.
    method TakeHop(input: array<real>)
      requires Valid() && input != inbuf && input != outbuf && input.Length == half
      modifies `haveNblkTime, `consumed, inbuf, inbufWin, stftCoef, forward.tmpbuf
      ensures Consistent()
      ensures consumed == old(consumed) + old(input[..]) && haveNblkTime == old(haveNblkTime) + 1
    {
      hide CircleExp, KeepsShape, KissFftrState.Valid, Setup.Ola, Setup.Sample, Setup.Frames, Setup.GroupRow,
           Setup.GroupRows, Setup.Analysed, Setup.Ok, Shapes, Configured, RowsAre, OutbufIs, Consistent;
      BlockFacts();
      BufferFacts();
      ghost var x, a, hop := consumed, inbuf[..], input[..];
      ghost var y, r, h := x + hop, haveNblkTime, Hops();
      ghost var rows := Pending();
      ShiftIn(inbuf, input);
      Model().SampleSlide(x, hop, a, inbuf[..], h);
      Stft(y, h, rows);
      Model().GroupRowsGrow(x, y, blocks, r);
      Model().BlockPending(x, y, blocks, r);
      haveNblkTime := haveNblkTime + 1;
      consumed := y;
      assert Hops() == h + 1;
      BlockGrown();
    }

    // The second half: the spectral stage, then synthesis of the whole block.
    method FinishBlock()
      requires Consistent() && haveNblkTime == GROUP
      modifies `haveNblkTime, `blocks, inbufWin, outbuf, stftCoef, backward.tmpbuf
      ensures Valid() && blocks == old(blocks) + 1 && haveNblkTime == 0
    {
      hide CircleExp, KissFftrState.Valid, Setup.Ola, Setup.Sample, Setup.Frames, Setup.Group, Setup.GroupRow,
           Setup.Analysed, Setup.Ok, Shapes, Configured, InbufIs, OutbufIs, RowsAre, Consistent;
      BlockFacts();
      BufferFacts();
      ghost var rows, fs := Pending(), Model().Frames(consumed, blocks * GROUP);
      Model().GroupIsRows(consumed, blocks);
      Model().FramesWhole(consumed, blocks * GROUP);
      Core(rows);
      Synthesise(GROUP, core(rows), fs);
      Model().BlockDone(consumed, blocks, fs);
      Model().BlockBase(blocks);
      ghost var h := Hops();
      haveNblkTime := 0;
      blocks := blocks + 1;
      assert Hops() == h;
      BlockStarted();
    }

    lemma BlockFacts()
      requires Consistent()
      ensures Shapes() && Configured() && |consumed| == Hops() * half && InbufIs(consumed, Hops())
      ensures RowsAre(Pending())
      ensures OutbufIs(Model().Frames(consumed, blocks * GROUP), blocks * GROUP * half - GROUP * half)
    {
      hide Shapes, Configured, InbufIs, OutbufIs, RowsAre, Setup.GroupRows;
      assert Model().Ok() by { BufferFacts(); }
    }

    lemma BlockGrown()
      requires Shapes() && Configured() && haveNblkTime <= GROUP
      requires |consumed| == Hops() * half && InbufIs(consumed, Hops()) && Model().Ok() && RowsAre(Pending())
      requires OutbufIs(Model().Frames(consumed, blocks * GROUP), blocks * GROUP * half - GROUP * half)
      ensures Consistent()
    {
      hide Configured, InbufIs, OutbufIs, RowsAre, Setup.Ok, Setup.Frames, Setup.GroupRows;
    }

    lemma BlockStarted()
      requires Shapes() && Configured() && haveNblkTime == 0
      requires |consumed| == Hops() * half && InbufIs(consumed, Hops())
      requires OutbufIs(Model().Frames(consumed, blocks * GROUP), blocks * GROUP * half - GROUP * half)
      ensures Valid()
    {
      hide Configured, InbufIs, OutbufIs, Setup.Ok, Setup.Frames;
      BufferFacts();
    }

    // blockThreshold_denoise_float
    method DenoiseFloat(input: array<real>) returns (code: Code)
      requires Valid() && input != inbuf && input != outbuf
      modifies `haveNblkTime, `consumed, `blocks, inbuf, inbufWin, outbuf, stftCoef, forward.tmpbuf, backward.tmpbuf
      ensures Valid()
      ensures code == ErrorParams <==> input.Length != half
      ensures code == ErrorParams ==> consumed == old(consumed) && Hops() == old(Hops())
      ensures code != ErrorParams ==> consumed == old(consumed) + old(input[..]) && Hops() == old(Hops()) + 1
      ensures code == CanOutput <==> input.Length == half && haveNblkTime == 0
    {
      hide Consistent;
      if input.Length != half { return ErrorParams; }
      TakeHop(input);
      if haveNblkTime != GROUP {
        return NeedMoreSamples;
      }
      FinishBlock();
      return CanOutput;
    }

    // blockThreshold_output_float: the block just finished.
    method OutputFloat(out: array<real>) returns (n: int)
      requires Valid() && out != outbuf
      modifies out
      ensures n == if out.Length < GROUP * half then 0 else GROUP * half
      ensures n > 0 ==> out[..n] == Model().OlaSlice(Model().Frames(consumed, blocks * GROUP),
                                                     blocks * GROUP * half - GROUP * half, GROUP * half)
      ensures forall i :: n <= i < out.Length ==> out[i] == old(out[i])
    {
      hide CircleExp, KeepsShape, KissFftrState.Valid, Setup.Ola, Setup.Frames, Setup.Sample, Setup.GroupRows;
      if out.Length < GROUP * half { return 0; }
      CopyOut(outbuf, out, GROUP * half);
      return GROUP * half;
    }

    // blockThreshold_flush_float: the pending frames, as analysed, over the carried half window.
    method FlushFloat(out: array<real>) returns (n: int)
      requires Valid() && out != outbuf && out != inbufWin && out != inbuf
      modifies out, outbuf, inbufWin, backward.tmpbuf
      ensures n == if out.Length < haveNblkTime * half then -1 else haveNblkTime * half
      ensures n >= 0 ==> out[..n] == Model().OlaSlice(Model().Frames(consumed, Hops()), blocks * GROUP * half, n)
      ensures forall i :: (if n < 0 then 0 else n) <= i < out.Length ==> out[i] == old(out[i])
    {
      hide CircleExp, KeepsShape, KissFftrState.Valid, Setup.Ola, Setup.Frames, Setup.Sample, Setup.GroupRows,
           Setup.GroupRow, Setup.AllSynthesised;
      var outSize := haveNblkTime * half;
      if out.Length < outSize { return -1; }
      ghost var rows, fs := Pending(), Model().Frames(consumed, blocks * GROUP);
      Model().FramesWhole(consumed, blocks * GROUP);
      Synthesise(haveNblkTime, rows, fs);
      Model().FlushFrames(consumed, blocks, rows);
      MulMono(half, haveNblkTime, GROUP);
      CopyOut(outbuf, out, outSize);
      return outSize;
    }

    // blockThreshold_reset
    method Reset()
      requires Shapes() && Configured()
      modifies `haveNblkTime, `consumed, `blocks, inbuf, outbuf
      ensures Valid() && consumed == [] && blocks == haveNblkTime == 0
    {
      hide CircleExp, KeepsShape, KissFftrState.Valid, Setup.Ola, Setup.Sample, Setup.Frames, Setup.GroupRow;
      Clear(inbuf);
      Clear(outbuf);
      Model().SilentBefore();
      haveNblkTime := 0;
      consumed, blocks := [], 0;
    }

    // A buffer of the caller's.
    predicate Separate(a: array<real>) {
      a != inbuf && a != inbufWin && a != outbuf
    }

    // All the output that finished macro blocks have given.
    ghost function Finished(): seq<real>
      requires Model().Ok()
      reads this
    {
      Model().OlaSlice(Model().Frames(consumed, blocks * GROUP), 0, blocks * GROUP * half)
    }

    // One turn of the loop of main: a hop in, and a block out if one is ready.
    method NextHop(hop: seq<real>, y: seq<real>, input: array<real>, out: array<real>) returns (z: seq<real>)
      requires Valid() && |hop| == half == input.Length && out.Length == GROUP * half
      requires Separate(input) && Separate(out) && input != out
      requires y == Finished()
      modifies `haveNblkTime, `consumed, `blocks, inbuf, inbufWin, outbuf, stftCoef, forward.tmpbuf, backward.tmpbuf
      modifies input, out
      ensures Valid() && consumed == old(consumed) + hop && Hops() == old(Hops()) + 1
      ensures z == Finished()
    {
      hide Consistent, CircleExp, KeepsShape, Setup.Frames, Setup.Ola, Setup.OlaSlice, Setup.Ok;
      InvariantFacts();
      ghost var was, g, r := consumed, blocks, haveNblkTime;
      Load(input, hop);
      var code := DenoiseFloat(input);
      Model().Collected(was, consumed, g, r);
      z := y;
      if code == CanOutput {
        assert blocks == g + 1;
        var n := OutputFloat(out);
        z := y + out[..n];
      } else {
        assert blocks == g;
      }
    }

    // The loop of main: hop by hop, a block out whenever one is ready; at the end the
    // flush, then the samples that did not fill a hop, as they came.
    method DenoiseStream(x: seq<real>) returns (y: seq<real>)
      requires Valid() && consumed == [] && Hops() == 0
      modifies `haveNblkTime, `consumed, `blocks, inbuf, inbufWin, outbuf, stftCoef, forward.tmpbuf, backward.tmpbuf
      ensures half >= 1 && |x| / half * half <= |x|
      ensures y == Model().Streamed(x, |x| / half) + x[|x| / half * half..]
    {
      hide Consistent, CircleExp, KeepsShape, Setup.Frames, Setup.Ola, Setup.OlaSlice, Setup.Streamed, Setup.Ok;
      InvariantFacts();
      var input, out, pos := new real[half](i => 0.0), new real[GROUP * half](i => 0.0), 0;
      y := [];
      Model().EmptySlice(Model().Frames([], 0));
      while half <= |x| - pos
        invariant Valid() && fresh(input) && fresh(out) && input.Length == half && out.Length == GROUP * half
        invariant 0 <= pos <= |x| && consumed == x[..pos] && pos == Hops() * half
        invariant y == Finished()
        decreases |x| - pos
      {
        NextSlice(x, pos, half);
        HopAfter(Hops(), half);
        y := NextHop(x[pos..pos + half], y, input, out);
        pos := pos + half;
      }
      InvariantFacts();
      ghost var g, r := blocks, haveNblkTime;
      MulMono(half, haveNblkTime, GROUP);
      Model().AllCollected(consumed, x, g, r, Hops());
      var n := FlushFloat(out);
      y := y + out[..n] + x[pos..];
    }

    lemma InvariantFacts()
      requires Valid()
      ensures half >= 1 && Model().Ok() && haveNblkTime < GROUP && |consumed| == Hops() * half
    {}
  }
}
