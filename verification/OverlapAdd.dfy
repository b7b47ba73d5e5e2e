/** What the denoiser's stream computes: windowed analysis, a spectral stage on groups of
    eight frames, and one overlap-add of all synthesised frames at half a window's hop. */
module OverlapAdd {
  import opened Arith
  import opened Complex
  import opened Circle
  import opened Fourier
  import opened Fftr

  // max_nblk_time: frames in a macro block
  const GROUP := 8

  type Row = seq<Cpx>

  ghost predicate IsGroup(rows: seq<Row>, half: int) {
    |rows| == GROUP && forall r :: 0 <= r < GROUP ==> |rows[r]| == half + 1
  }

  // A spectral stage may do anything to eight rows but change their shape.
  ghost predicate KeepsShape(core: seq<Row> -> seq<Row>, half: int) {
    forall rows :: IsGroup(rows, half) ==> IsGroup(core(rows), half)
  }

  datatype Setup = Setup(half: nat, win: seq<real>, cexp: real -> Cpx, core: seq<Row> -> seq<Row>) {

    ghost predicate Ok() {
      half >= 1 && |win| == 2 * half && CircleExp(cexp) && KeepsShape(core, half)
    }

    // Sample t of the input, silent before the start and after the end.
    ghost function Sample(x: seq<real>, t: int): real {
      if 0 <= t < |x| then x[t] else 0.0
    }

    // Frame i covers hops i-1 and i of the input, windowed.
    ghost function Windowed(x: seq<real>, i: int): (f: seq<real>)
      requires Ok()
      ensures |f| == 2 * half
    {
      seq(2 * half, j requires 0 <= j < 2 * half => Sample(x, (i - 1) * half + j) * win[j])
    }

    ghost function Spectrum(f: seq<real>): (row: Row)
      requires Ok()
      ensures |row| == half + 1
    {
      seq(half + 1, k requires 0 <= k => Dft(RealView(f), Turns(cexp, 2 * half, false), 2 * half, k))
    }

    ghost function Analysed(x: seq<real>, i: int): (row: Row)
      requires Ok()
      ensures |row| == half + 1
    {
      Spectrum(Windowed(x, i))
    }

    ghost function GroupRow(x: seq<real>, g: int, r: int): (row: Row)
      requires Ok()
      ensures |row| == half + 1
    {
      Analysed(x, GROUP * g + r)
    }

    ghost function Group(x: seq<real>, g: int): (rows: seq<Row>)
      requires Ok()
      ensures IsGroup(rows, half)
    {
      var rows := seq(GROUP, r requires 0 <= r < GROUP => GroupRow(x, g, r));
      assert forall r | 0 <= r < GROUP :: rows[r] == GroupRow(x, g, r);
      rows
    }

    // The inverse transform of a row, divided by the window size.
    ghost function Synthesised(row: Row): (f: seq<real>)
      requires Ok()
      ensures |f| == 2 * half
    {
      seq(2 * half, j requires 0 <= j < 2 * half =>
        InverseReal(row, Turns(cexp, 2 * half, true), half, j) / (2 * half) as real)
    }

    ghost function AllSynthesised(rows: seq<Row>): (fs: seq<seq<real>>)
      requires Ok()
      ensures |fs| == |rows|
    {
      seq(|rows|, i requires 0 <= i < |rows| => Synthesised(rows[i]))
    }

    // Frame i of a full macro block has been through the spectral stage.
    ghost function Processed(x: seq<real>, i: nat): (f: seq<real>)
      requires Ok()
      ensures |f| == 2 * half
    {
      assert IsGroup(core(Group(x, i / GROUP)), half);
      Synthesised(core(Group(x, i / GROUP))[i % GROUP])
    }

    // The first n frames; those after the last full macro block are left as analysed.
    ghost function Frames(x: seq<real>, n: nat): (fs: seq<seq<real>>)
      requires Ok()
      ensures |fs| == n
    {
      seq(n, i requires 0 <= i < n =>
        if i < n / GROUP * GROUP then Processed(x, i) else Synthesised(Analysed(x, i)))
    }

    // What frame i contributes at output time t.
    ghost function Tap(f: seq<real>, i: int, t: int): real {
      if 0 <= t - i * half < |f| then f[t - i * half] else 0.0
    }

    // Every frame laid down at its hop and added up.
    ghost function Ola(fs: seq<seq<real>>, t: int): real {
      if fs == [] then 0.0 else
      Ola(fs[..|fs| - 1], t) + Tap(fs[|fs| - 1], |fs| - 1, t)
    }

    ghost function OlaSlice(fs: seq<seq<real>>, from: int, n: nat): (s: seq<real>)
      ensures |s| == n
    {
      seq(n, j requires 0 <= j => Ola(fs, from + j))
    }

    // The signal a run over n hops of x puts out.
    ghost function Streamed(x: seq<real>, n: nat): (s: seq<real>)
      requires Ok()
      ensures |s| == n * half
    {
      OlaSlice(Frames(x, n), 0, n * half)
    }

    lemma OlaSnoc(fs: seq<seq<real>>, f: seq<real>, t: int)
      ensures Ola(fs + [f], t) == Ola(fs, t) + Tap(f, |fs|, t)
    {
      var gs := fs + [f];
      assert gs[..|gs| - 1] == fs;
    }

    lemma SilentBefore()
      requires Ok()
      ensures forall t :: Sample([], t) == 0.0
      ensures forall t :: Ola(Frames([], 0), t) == 0.0
    {}

    // The frame after fs, laid into a buffer whose cell 0 is output time base.
    lemma OlaCell(fs: seq<seq<real>>, f: seq<real>, base: int, r: int, s: int)
      requires base == (|fs| - r) * half && |f| == 2 * half
      ensures Ola(fs + [f], base + s)
           == Ola(fs, base + s) + if half * r <= s < half * r + 2 * half then f[s - half * r] else 0.0
    {
      OlaSnoc(fs, f, base + s);
      assert base == |fs| * half - half * r;
    }

    lemma SynthesisedAt(row: Row, j: int)
      requires Ok() && 0 <= j < 2 * half
      ensures Synthesised(row)[j] == InverseReal(row, Turns(cexp, 2 * half, true), half, j) / (2 * half) as real
    {}

    lemma WindowedIs(x: seq<real>, i: int, a: seq<real>, b: seq<real>)
      requires Ok() && |a| == |b| == 2 * half
      requires forall j :: 0 <= j < 2 * half ==> a[j] == Sample(x, (i + 1 - 2) * half + j)
      requires forall j :: 0 <= j < 2 * half ==> b[j] == a[j] * win[j]
      ensures b == Windowed(x, i)
    {
      hide Sample;
      assert i + 1 - 2 == i - 1;
      var w := Windowed(x, i);
      forall j | 0 <= j < 2 * half ensures b[j] == w[j] {}
    }

    // ----- frames reach no further than two hops

    ghost predicate Whole(fs: seq<seq<real>>) {
      forall i :: 0 <= i < |fs| ==> |fs[i]| == 2 * half
    }

    lemma {:induction false} OlaBeyond(fs: seq<seq<real>>, t: int)
      requires Whole(fs) && t >= (|fs| + 1) * half
      ensures Ola(fs, t) == 0.0
    {
      if fs != [] {
        var n := |fs|;
        HopStep(n);
        OlaBeyond(fs[..n - 1], t);
      }
    }

    lemma HopStep(n: int)
      ensures (n + 1) * half == n * half + half && (n - 1) * half + 2 * half == (n + 1) * half
    {}

    // Frames that start later do not matter.
    lemma {:induction false} OlaPrefix(fs: seq<seq<real>>, gs: seq<seq<real>>, t: int)
      requires fs <= gs && t < |fs| * half
      ensures Ola(gs, t) == Ola(fs, t)
      decreases |gs|
    {
      if |gs| > |fs| {
        var hs := gs[..|gs| - 1];
        MulMono(half, |fs|, |gs| - 1);
        assert fs <= hs;
        OlaPrefix(fs, hs, t);
      } else {
        assert fs == gs;
      }
    }

    // At most two frames overlap anywhere.
    lemma OlaTwo(fs: seq<seq<real>>, q: nat, j: nat)
      requires Whole(fs) && q < |fs| && j < half
      ensures Ola(fs, q * half + j) == fs[q][j] + if q == 0 then 0.0 else fs[q - 1][half + j]
    {
      var t := q * half + j;
      HopStep(q);
      var gs, hs := fs[..q + 1], fs[..q];
      OlaPrefix(gs, fs, t);
      assert gs[..q] == hs && gs[q] == fs[q];
      if q > 0 {
        var ks := hs[..q - 1];
        assert ks == fs[..q - 1] && hs[q - 1] == fs[q - 1];
        HopStep(q - 1);
        OlaBeyond(ks, t);
        assert Ola(hs, t) == Ola(ks, t) + Tap(fs[q - 1], q - 1, t);
      }
    }

    lemma FramesWhole(x: seq<real>, n: nat)
      requires Ok()
      ensures Whole(Frames(x, n))
    {}

    // ----- later input does not change finished frames

    lemma WindowedPrefix(x: seq<real>, y: seq<real>, i: int)
      requires Ok() && x <= y && (i + 1) * half <= |x|
      ensures Windowed(y, i) == Windowed(x, i)
    {
      HopStep(i);
      var from := (i - 1) * half;
      forall j | 0 <= j < 2 * half ensures Windowed(y, i)[j] == Windowed(x, i)[j] {
        assert from + j < |x|;
        assert Sample(y, from + j) == Sample(x, from + j);
      }
    }

    lemma GroupPrefix(x: seq<real>, y: seq<real>, g: int)
      requires Ok() && x <= y && (GROUP * g + GROUP) * half <= |x|
      ensures Group(y, g) == Group(x, g)
    {
      hide Windowed, Spectrum;
      forall r | 0 <= r < GROUP ensures Group(y, g)[r] == Group(x, g)[r] {
        MulMono(half, GROUP * g + r + 1, GROUP * g + GROUP);
        WindowedPrefix(x, y, GROUP * g + r);
      }
    }

    lemma ProcessedPrefix(x: seq<real>, y: seq<real>, g: nat, i: nat)
      requires Ok() && x <= y && i < GROUP * g && GROUP * g * half <= |x|
      ensures Processed(x, i) == Processed(y, i)
    {
      hide Synthesised, Group;
      MulMono(half, GROUP * (i / GROUP) + GROUP, GROUP * g);
      GroupPrefix(x, y, i / GROUP);
    }

    // The processed frames of n full macro blocks stay what they are.
    lemma FramesPrefix(x: seq<real>, y: seq<real>, g: nat, n: nat)
      requires Ok() && x <= y && GROUP * g <= n && GROUP * g * half <= |x|
      ensures Frames(x, GROUP * g) <= Frames(y, n)
    {
      hide Synthesised, Group, Analysed, Processed;
      var fs, gs := Frames(x, GROUP * g), Frames(y, n);
      FullGroups(g, n);
      forall i | 0 <= i < GROUP * g ensures fs[i] == gs[i] {
        ProcessedPrefix(x, y, g, i);
      }
    }

    lemma FullGroups(g: nat, n: nat)
      requires GROUP * g <= n
      ensures GROUP * g / GROUP * GROUP == GROUP * g <= n / GROUP * GROUP
    {}

    // One more hop: what the sliding buffer holds, and the row it gives.
    lemma SampleSlide(x: seq<real>, hop: seq<real>, a: seq<real>, b: seq<real>, n: nat)
      requires half >= 1 && |x| == n * half && |hop| == half && |a| == 2 * half
      requires forall j :: 0 <= j < 2 * half ==> a[j] == Sample(x, (n - 2) * half + j)
      requires b == a[half..] + hop
      ensures |x + hop| == (n + 1) * half
      ensures forall j :: 0 <= j < 2 * half ==> b[j] == Sample(x + hop, (n + 1 - 2) * half + j)
    {
      HopStep(n);
      assert (n - 1) * half == (n - 2) * half + half && n * half == (n - 1) * half + half;
    }

    // The first n rows of group g.
    ghost function GroupRows(x: seq<real>, g: int, n: nat): (rows: seq<Row>)
      requires Ok()
      ensures |rows| == n
      ensures forall r :: 0 <= r < n ==> rows[r] == GroupRow(x, g, r)
    {
      seq(n, r requires 0 <= r => GroupRow(x, g, r))
    }

    lemma GroupIsRows(x: seq<real>, g: int)
      requires Ok()
      ensures GroupRows(x, g, GROUP) == Group(x, g) && IsGroup(Group(x, g), half)
    {
      hide GroupRow;
    }

    lemma FullFrame(x: seq<real>, g: nat, i: nat)
      requires Ok() && i < g * GROUP
      ensures Frames(x, g * GROUP)[i] == Processed(x, i)
    {
      hide Processed, Synthesised;
      assert g * GROUP / GROUP * GROUP == g * GROUP;
    }

    lemma LastGroupFrame(x: seq<real>, g: nat, r: nat)
      requires Ok() && r < GROUP
      ensures IsGroup(core(Group(x, g)), half)
      ensures Processed(x, g * GROUP + r) == Synthesised(core(Group(x, g))[r])
    {
      hide Synthesised, GroupRow;
      assert IsGroup(Group(x, g), half);
      assert (g * GROUP + r) / GROUP == g && (g * GROUP + r) % GROUP == r;
    }

    // A finished block extends the processed frames by its eight.
    lemma BlockDone(x: seq<real>, g: nat, fs: seq<seq<real>>)
      requires Ok() && fs == Frames(x, g * GROUP)
      ensures IsGroup(core(Group(x, g)), half)
      ensures fs + AllSynthesised(core(Group(x, g))) == Frames(x, (g + 1) * GROUP)
    {
      hide Synthesised, Group, Processed, Frames;
      LastGroupFrame(x, g, 0);
      var rows := core(Group(x, g));
      var gs, hs := Frames(x, (g + 1) * GROUP), fs + AllSynthesised(rows);
      forall i | 0 <= i < (g + 1) * GROUP ensures hs[i] == gs[i] {
        FullFrame(x, g + 1, i);
        if i < g * GROUP { FullFrame(x, g, i); } else { LastGroupFrame(x, g, i - g * GROUP); }
      }
    }

    lemma BlockBase(g: nat)
      ensures (g + 1) * GROUP * half - GROUP * half == g * GROUP * half
    {}

    // While a block fills, the processed frames stay the same list.
    lemma BlockPending(x: seq<real>, y: seq<real>, g: nat, r: nat)
      requires Ok() && x <= y && |x| == (g * GROUP + r) * half
      ensures Frames(x, g * GROUP) == Frames(y, g * GROUP)
    {
      MulMono(half, g * GROUP, g * GROUP + r);
      FramesPrefix(x, y, g, g * GROUP);
    }

    // The new hop completes the next row and leaves the earlier ones.
    lemma GroupRowsGrow(x: seq<real>, y: seq<real>, g: nat, r: nat)
      requires Ok() && x <= y && |x| == (g * GROUP + r) * half
      ensures GroupRows(y, g, r + 1) == GroupRows(x, g, r) + [Analysed(y, g * GROUP + r)]
    {
      hide Windowed, Spectrum;
      forall q | 0 <= q < r ensures GroupRow(y, g, q) == GroupRow(x, g, q) {
        MulMono(half, GROUP * g + q + 1, g * GROUP + r);
        WindowedPrefix(x, y, GROUP * g + q);
      }
    }

    // At the flush the pending rows go out as they are.
    lemma FlushFrames(x: seq<real>, g: nat, rows: seq<Row>)
      requires Ok() && |rows| < GROUP
      requires forall r :: 0 <= r < |rows| ==> rows[r] == GroupRow(x, g, r)
      ensures Frames(x, g * GROUP) + AllSynthesised(rows) == Frames(x, g * GROUP + |rows|)
    {
      hide Synthesised, Analysed, Processed, Frames, AllSynthesised;
      var n := g * GROUP + |rows|;
      var fs, gs := Frames(x, g * GROUP), Frames(x, n);
      var hs := AllSynthesised(rows);
      forall i | 0 <= i < n ensures (fs + hs)[i] == gs[i] {
        FrameAt(x, g, |rows|, i);
        if i < g * GROUP {
          FullFrame(x, g, i);
        } else {
          assert rows[i - g * GROUP] == GroupRow(x, g, i - g * GROUP);
          assert hs[i - g * GROUP] == Synthesised(rows[i - g * GROUP]) by { AllSynthesisedAt(rows, i - g * GROUP); }
        }
      }
    }

    lemma FrameAt(x: seq<real>, g: nat, r: nat, i: nat)
      requires Ok() && r < GROUP && i < g * GROUP + r
      ensures Frames(x, g * GROUP + r)[i] == if i < g * GROUP then Processed(x, i) else Synthesised(Analysed(x, i))
    {
      hide Synthesised, Analysed, Processed;
      assert (g * GROUP + r) / GROUP == g;
    }

    lemma AllSynthesisedAt(rows: seq<Row>, i: nat)
      requires Ok() && i < |rows|
      ensures AllSynthesised(rows)[i] == Synthesised(rows[i])
    {
      hide Synthesised;
    }

    // n frames are settled once their n hops are in.
    lemma FramesSettled(x: seq<real>, y: seq<real>, n: nat)
      requires Ok() && x <= y && n * half <= |x|
      ensures Frames(x, n) == Frames(y, n)
    {
      hide Synthesised, Group, Analysed, Processed;
      var fs, gs, m := Frames(x, n), Frames(y, n), n / GROUP;
      assert m * GROUP <= n;
      MulMono(half, GROUP * m, n);
      forall i | 0 <= i < n ensures fs[i] == gs[i] {
        if i < m * GROUP { ProcessedPrefix(x, y, m, i); } else { AnalysedPrefix(x, y, n, i); }
      }
    }

    lemma AnalysedPrefix(x: seq<real>, y: seq<real>, n: nat, i: nat)
      requires Ok() && x <= y && n * half <= |x| && i < n
      ensures Analysed(x, i) == Analysed(y, i)
    {
      hide Spectrum, Windowed;
      MulMono(half, i + 1, n);
      WindowedPrefix(x, y, i);
    }

    lemma EmptySlice(fs: seq<seq<real>>)
      ensures OlaSlice(fs, 0, 0) == []
    {}

    lemma BlockCounts(g: nat, r: nat, n: nat)
      requires n == g * GROUP + r
      ensures g * GROUP * half + r * half == n * half
      ensures g * GROUP * half + GROUP * half == (g + 1) * GROUP * half
      ensures (n + 1) * half == n * half + half
    {}

    // The output so far after one more hop that finished no block, and after one that did.
    lemma Collected(x: seq<real>, y: seq<real>, g: nat, r: nat)
      requires Ok() && x <= y && |x| == (g * GROUP + r) * half
      ensures OlaSlice(Frames(x, g * GROUP), 0, g * GROUP * half) == OlaSlice(Frames(y, g * GROUP), 0, g * GROUP * half)
      ensures OlaSlice(Frames(x, g * GROUP), 0, g * GROUP * half)
            + OlaSlice(Frames(y, (g + 1) * GROUP), (g + 1) * GROUP * half - GROUP * half, GROUP * half)
           == OlaSlice(Frames(y, (g + 1) * GROUP), 0, (g + 1) * GROUP * half)
    {
      hide Frames, Ola, OlaSlice;
      BlockPending(x, y, g, r);
      BlockCounts(g, r, g * GROUP + r);
      SliceJoin(x, y, g, (g + 1) * GROUP, GROUP * half);
    }

    // Blocks and flush together are the whole run's output.
    lemma AllCollected(x: seq<real>, y: seq<real>, g: nat, r: nat, n: nat)
      requires Ok() && x <= y && n == g * GROUP + r && |x| == n * half && |y| - |x| < half
      ensures |y| / half == n
      ensures OlaSlice(Frames(x, g * GROUP), 0, g * GROUP * half) + OlaSlice(Frames(x, n), g * GROUP * half, r * half)
           == Streamed(y, n)
    {
      hide Frames, Ola, OlaSlice;
      BlockCounts(g, r, n);
      SliceJoin(x, x, g, n, r * half);
      FramesSettled(x, y, n);
      ModUnique(|y|, half, n, |y| - |x|);
    }

    // A block's worth of output follows what the earlier blocks put out.
    lemma SliceJoin(x: seq<real>, y: seq<real>, g: nat, n: nat, k: nat)
      requires Ok() && x <= y && GROUP * g <= n && GROUP * g * half <= |x|
      ensures OlaSlice(Frames(x, g * GROUP), 0, g * GROUP * half) + OlaSlice(Frames(y, n), g * GROUP * half, k)
           == OlaSlice(Frames(y, n), 0, g * GROUP * half + k)
    {
      hide Frames, Ola;
      FramesPrefix(x, y, g, n);
      var fs, gs, b := Frames(x, g * GROUP), Frames(y, n), g * GROUP * half;
      forall t | 0 <= t < b ensures Ola(fs, t) == Ola(gs, t) {
        OlaPrefix(fs, gs, t);
      }
    }

    // ----- with an idle spectral stage

    lemma Gains(a: real, b: real, s: real)
      ensures s * a + s * b == (a + b) * s
    {}

    lemma DivMul(a: real, b: real, v: real)
      requires b > 0.0 && v == b * a
      ensures v / b == a
    {}

    // Analysis and synthesis alone give the windowed frame back.
    lemma AnalysisSynthesis(f: seq<real>)
      requires Ok() && |f| == 2 * half
      ensures Synthesised(Spectrum(f)) == f
    {
      hide CircleExp, Spectrum, Synthesised;
      var row := Spectrum(f);
      forall j | 0 <= j < 2 * half ensures Synthesised(row)[j] == f[j] {
        SampleBack(f, j);
      }
    }

    lemma SampleBack(f: seq<real>, j: nat)
      requires Ok() && |f| == 2 * half && j < 2 * half
      ensures Synthesised(Spectrum(f))[j] == f[j]
    {
      hide CircleExp, Dft, InverseReal, Turns, Synthesised;
      var row := Spectrum(f);
      RealRoundTrip(cexp, half, f, row, j);
      SynthesisedAt(row, j);
      DivMul(f[j], (2 * half) as real, InverseReal(row, Turns(cexp, 2 * half, true), half, j));
    }

    ghost predicate Idle() {
      forall rows :: IsGroup(rows, half) ==> core(rows) == rows
    }

    lemma IdleFrame(x: seq<real>, n: nat, i: nat)
      requires Ok() && Idle() && i < n
      ensures Frames(x, n)[i] == Windowed(x, i)
    {
      hide Synthesised, Spectrum, Windowed;
      AnalysisSynthesis(Windowed(x, i));
      var g, r := i / GROUP, i % GROUP;
      assert Group(x, g)[r] == GroupRow(x, g, r) == Analysed(x, i);
      assert core(Group(x, g)) == Group(x, g);
    }

    lemma WindowedAt(x: seq<real>, i: int, j: int)
      requires Ok() && 0 <= j < 2 * half
      ensures Windowed(x, i)[j] == Sample(x, i * half - half + j) * win[j]
    {
      HopStep(i);
    }

    // The output is the input half a window late, scaled by the window's two halves added up.
    lemma IdleStream(x: seq<real>, n: nat, q: nat, j: nat)
      requires Ok() && Idle() && q < n && j < half
      ensures var t := q * half + j;
              && 0 <= t < n * half
              && Streamed(x, n)[t] == (win[j] + win[half + j]) * Sample(x, t - half)
    {
      hide Windowed, Frames, Ola, Sample;
      var t := q * half + j;
      MulMono(half, q + 1, n);
      HopStep(q);
      var fs, s := Frames(x, n), Sample(x, t - half);
      FramesWhole(x, n);
      OlaTwo(fs, q, j);
      IdleFrame(x, n, q);
      WindowedAt(x, q, j);
      assert q * half - half + j == t - half;
      assert Streamed(x, n)[t] == Ola(fs, t);
      if q > 0 {
        IdleFrame(x, n, q - 1);
        WindowedAt(x, q - 1, half + j);
        assert (q - 1) * half - half + (half + j) == t - half by { HopStep(q - 1); }
      } else {
        SilentStart(x, t - half);
      }
      Gains(win[j], win[half + j], s);
    }

    lemma SilentStart(x: seq<real>, t: int)
      requires t < 0
      ensures Sample(x, t) == 0.0
    {}
  }
}
