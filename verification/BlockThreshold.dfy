/** The denoiser's spectral stage: thresholds by macro block, then a Wiener gain per bin. */
module BlockThreshold {
  import opened Arith
  import opened Complex
  import opened OverlapAdd

  const FREQS := 16
  const LAMBDA: seq<seq<real>> := [
    [1.5, 1.8, 2.0, 2.5, 2.5],
    [1.8, 2.0, 2.5, 3.5, 3.5],
    [2.0, 2.5, 3.5, 4.7, 4.7]]

  /** How often a macro block is halved in time and in frequency. */
  datatype Halvings = Halvings(time: nat, freq: nat)
  type Segmentation = s: Halvings | s.time < 3 && s.freq < 5 witness Halvings(0, 0)

  // The tile sizes TT and FF of the source.
  function TileTimes(s: Segmentation): (n: nat)
    ensures 1 <= n <= GROUP && n * Pow2(s.time) == GROUP
  {
    match s.time case 0 => 8 case 1 => 4 case _ => 2
  }

  function TileFreqs(s: Segmentation): (n: nat)
    ensures 1 <= n <= FREQS && n * Pow2(s.freq) == FREQS
  {
    match s.freq case 0 => 16 case 1 => 8 case 2 => 4 case 3 => 2 case _ => 1
  }

  // ----- power and gains

  function RowPower(row: Row, f0: nat, f1: nat): (p: real)
    requires f0 <= f1 <= |row|
    ensures p >= 0.0
  {
    if f0 == f1 then 0.0 else RowPower(row, f0, f1 - 1) + NormSq(row[f1 - 1])
  }

  function Power(rows: seq<Row>, t0: nat, t1: nat, f0: nat, f1: nat): (p: real)
    requires t0 <= t1 <= |rows| && f0 <= f1 && forall t :: 0 <= t < |rows| ==> f1 <= |rows[t]|
    ensures p >= 0.0
  {
    if t0 == t1 then 0.0 else Power(rows, t0, t1 - 1, f0, f1) + RowPower(rows[t1 - 1], f0, f1)
  }

  // The attenuation of cells whose joint power is `power`: what exceeds the noise, relative to it.
  function Gain(noise: real, power: real): (g: real)
    requires noise > 0.0
    ensures 0.0 <= g < 1.0 && (g == 0.0 <==> power <= noise)
  {
    if power <= noise then 0.0 else GainBounds(noise, power); 1.0 - noise / power
  }

  lemma GainBounds(noise: real, power: real)
    requires 0.0 < noise < power
    ensures 0.0 < noise / power < 1.0
  {
    var q := noise / power;
    assert q * power == noise;
    if q >= 1.0 { RealMulMono(1.0, q, power); }
    if q <= 0.0 { RealMulMono(q, 0.0, power); }
  }

  lemma RealMulMono(a: real, b: real, c: real)
    requires a <= b && c >= 0.0
    ensures a * c <= b * c
  {}

  // ----- gains as the source computes them, dividing by zero at zero power

  /** A complex value both parts of which are numbers, or not. */
  datatype Cell = Num(z: Cpx) | NaN

  datatype Factor = Finite(x: real) | MinusInfinity | NotANumber

  // 1 - noise / power, for noise above zero.
  function Excess(noise: real, power: real): Factor {
    if power == 0.0 then MinusInfinity else Finite(1.0 - noise / power)
  }

  // a < 0, which a NaN is not.
  predicate IsNegative(a: Factor) {
    a.MinusInfinity? || (a.Finite? && a.x < 0.0)
  }

  // a * (a > 0): an infinity times zero is not a number.
  function KeptIfPositive(a: Factor): Factor {
    if a.Finite? then Finite(a.x * if a.x > 0.0 then 1.0 else 0.0) else NotANumber
  }

  function Times(a: Factor, c: Cell): Cell {
    if a.Finite? && c.Num? then Num(Cpx(c.z.r * a.x, c.z.i * a.x)) else NaN
  }

  // The factor of a tile: its gain, if it has any power.
  function TileFactor(noise: real, power: real): Factor
    requires noise > 0.0
  {
    if power == 0.0 then NotANumber else Finite(Gain(noise, power))
  }

  // The two ways to clip: what a column keeps, also at zero power, and what a tile keeps.
  lemma FactorsAsComputed(noise: real, power: real)
    requires noise > 0.0 && power >= 0.0
    ensures var a := Excess(noise, power);
      (if IsNegative(a) then Finite(0.0) else a) == Finite(Gain(noise, power))
      && KeptIfPositive(a) == TileFactor(noise, power)
  {
    if power > 0.0 { GainAsComputed(noise, power); }
  }

  // The source's form, for a non-zero power.
  lemma GainAsComputed(noise: real, power: real)
    requires noise > 0.0 && power > 0.0
    ensures Gain(noise, power) == if 1.0 - noise / power < 0.0 then 0.0 else 1.0 - noise / power
  {
    if power <= noise {
      QuotientAtLeastOne(noise, power);
    }
  }

  lemma QuotientAtLeastOne(x: real, y: real)
    requires 0.0 < y <= x
    ensures x / y >= 1.0 && (x / y == 1.0 <==> x == y)
  {}

  /** Half the window, the noise variance of a windowed sample, the sample rate, and the choice of
      segmentation. A window lasts two seconds at most. */
  datatype Stage = Stage(half: nat, variance: real, fs: nat, choose: seq<Row> -> Segmentation) {

    predicate Ok() {
      1 <= half <= fs && variance > 0.0
    }

    // Noise power expected in one bin of one frame.
    function Noise(): real {
      (2 * half) as real * variance
    }

    function Macros(): nat
      requires half >= 1
    {
      (2 * half - 1) / 2 / FREQS
    }

    // The 8 by 16 macro block starting at bin 1 + 16 m.
    function Block(rows: seq<Row>, m: nat): (b: seq<Row>)
      requires Shaped(rows, half + 1) && FREQS * (m + 1) <= half
      ensures Shaped(b, FREQS)
      ensures forall t, i :: 0 <= t < GROUP && 0 <= i < FREQS ==> b[t][i] == rows[t][1 + FREQS * m + i]
    {
      seq(GROUP, t requires 0 <= t < GROUP => rows[t][1 + FREQS * m..1 + FREQS * (m + 1)])
    }

    function ColumnNoise(): (x: real)
      requires Ok()
      ensures x > 0.0
    {
      2.5 * 8.0 * Noise()
    }

    function TileNoise(s: Segmentation): (x: real)
      requires Ok()
      ensures x > 0.0
    {
      LAMBDA[s.time][s.freq] * TileTimes(s) as real * TileFreqs(s) as real * Noise()
    }

    predicate InMacro(f: nat)
      requires half >= 1
    {
      1 <= f <= FREQS * Macros()
    }

    // The macro block of a bin, and how it is divided.
    function BlockOf(rows: seq<Row>, f: nat): (b: seq<Row>)
      requires Ok() && Shaped(rows, half + 1) && InMacro(f)
      ensures Shaped(b, FREQS)
    {
      Block(rows, (f - 1) / FREQS)
    }

    // The noise expected in, and the power found in, the cells judged together with cell (t, f):
    // its tile of a macro block, or its whole column.
    function CellNoise(rows: seq<Row>, f: nat): (x: real)
      requires Ok() && Shaped(rows, half + 1) && f <= half
      ensures x > 0.0
    {
      if InMacro(f) then TileNoise(choose(BlockOf(rows, f))) else ColumnNoise()
    }

    function CellPower(rows: seq<Row>, t: nat, f: nat): (p: real)
      requires Ok() && Shaped(rows, half + 1) && t < GROUP && f <= half
      ensures p >= 0.0
    {
      if InMacro(f) then TilePower(BlockOf(rows, f), choose(BlockOf(rows, f)), t, (f - 1) % FREQS)
      else Power(rows, 0, GROUP, f, f + 1)
    }

    /** The threshold map: each cell scaled by the gain of its column or of its tile. */
    function CellGain(rows: seq<Row>, t: nat, f: nat): real
      requires Ok() && Shaped(rows, half + 1) && t < GROUP && f <= half
    {
      Gain(CellNoise(rows, f), CellPower(rows, t, f))
    }

    function Threshold(rows: seq<Row>, t: nat, f: nat): Cpx
      requires Ok() && Shaped(rows, half + 1) && t < GROUP && f <= half
    {
      Scale(CellGain(rows, t, f), rows[t][f])
    }

    // The same as the source computes it: a tile without power is lost.
    function CellFactor(rows: seq<Row>, t: nat, f: nat): Factor
      requires Ok() && Shaped(rows, half + 1) && t < GROUP && f <= half
    {
      if InMacro(f) then TileFactor(CellNoise(rows, f), CellPower(rows, t, f)) else Finite(CellGain(rows, t, f))
    }

    function ThresholdCell(rows: seq<Row>, t: nat, f: nat): Cell
      requires Ok() && Shaped(rows, half + 1) && t < GROUP && f <= half
    {
      Times(CellFactor(rows, t, f), Num(rows[t][f]))
    }

    function FilterCell(thre: Cell, coef: Cell, f: nat): Cell
      requires Ok()
    {
      if thre.Num? && coef.Num? then Num(Scale(BinGain(thre.z, f), coef.z)) else NaN
    }

    function Outcome(rows: seq<Row>, t: nat, f: nat): Cell
      requires Ok() && Shaped(rows, half + 1) && t < GROUP && f <= half
    {
      if f < half then FilterCell(ThresholdCell(rows, t, f), Num(rows[t][f]), f) else Num(rows[t][f])
    }

    // The Wiener gain of a thresholded cell, with the extra attenuation of the low bins.
    function BinGain(thre: Cpx, f: nat): (g: real)
      requires Ok()
      ensures 0.0 <= g < 1.0 && (g == 0.0 <==> thre == ZERO)
    {
      WienerBounds(thre, Noise());
      var w := NormSq(thre) / (NormSq(thre) + Noise());
      if f < LowIndex(fs, half) then 0.45 * w else w
    }

    function Filtered(rows: seq<Row>, t: nat, f: nat): Cpx
      requires Ok() && Shaped(rows, half + 1) && t < GROUP && f <= half
    {
      if f < half then Scale(BinGain(Threshold(rows, t, f), f), rows[t][f]) else rows[t][f]
    }

    /** What the spectral stage makes of eight rows. */
    function Run(rows: seq<Row>): (r: seq<Row>)
      requires Ok() && Shaped(rows, half + 1)
      ensures Shaped(r, half + 1)
    {
      seq(GROUP, t requires 0 <= t < GROUP =>
        seq(half + 1, f requires 0 <= f <= half => Filtered(rows, t, f)))
    }

    lemma RunAt(rows: seq<Row>, t: nat, f: nat)
      requires Ok() && Shaped(rows, half + 1) && t < GROUP && f <= half
      ensures Shaped(Run(rows), half + 1) && Run(rows)[t][f] == Filtered(rows, t, f)
    {
      hide Filtered;
    }
  }

  lemma WienerBounds(z: Cpx, noise: real)
    requires noise > 0.0
    ensures NormSq(z) >= 0.0 && 0.0 <= NormSq(z) / (NormSq(z) + noise) < 1.0
    ensures NormSq(z) / (NormSq(z) + noise) == 0.0 <==> z == ZERO
  {
    hide NormSq;
    NormSqNonNegative(z);
    var p := NormSq(z);
    if p == 0.0 {
      NormZero(z);
    } else {
      NormSqZero();
      GainBounds(p, p + noise);
    }
  }

  lemma NormSqNonNegative(z: Cpx)
    ensures NormSq(z) >= 0.0
  {}

  lemma NormSqZero()
    ensures NormSq(ZERO) == 0.0
  {}

  // Power of the tile that holds cell (t, w) of a macro block.
  function TilePower(b: seq<Row>, s: Segmentation, t: nat, w: nat): (p: real)
    requires Shaped(b, FREQS) && t < GROUP && w < FREQS
    ensures p >= 0.0
  {
    TileCorners(s, t, w);
    var r0, c0 := Corner(t, TileTimes(s)), Corner(w, TileFreqs(s));
    Power(b, r0, r0 + TileTimes(s), c0, c0 + TileFreqs(s))
  }

  predicate Shaped(rows: seq<Row>, width: int) {
    |rows| == GROUP && forall t :: 0 <= t < GROUP ==> |rows[t]| == width
  }

  // Start of the tile that x lies in, for tiles of length n.
  function Corner(x: nat, n: nat): (c: nat)
    requires n >= 1
    ensures c <= x < c + n
  {
    x - x % n
  }

  lemma TileCorners(s: Segmentation, t: nat, w: nat)
    requires t < GROUP && w < FREQS
    ensures Corner(t, TileTimes(s)) + TileTimes(s) <= GROUP
    ensures Corner(w, TileFreqs(s)) + TileFreqs(s) <= FREQS
  {
    hide Corner, TileTimes, TileFreqs;
    CornerFits(t, TileTimes(s), Pow2(s.time));
    CornerFits(w, TileFreqs(s), Pow2(s.freq));
  }

  // Of k tiles of length n, the one that x lies in is whole.
  lemma CornerFits(x: nat, n: nat, k: nat)
    requires n >= 1 && x < n * k
    ensures Corner(x, n) + n <= n * k
  {
    var q := x / n;
    assert Corner(x, n) == n * q;
    if q >= k { MulMono(n, k, q); }
    TileInside(n, q, k);
  }

  // ----- the passes over the coefficient and threshold matrices

  ghost predicate Holds(m: array2<Cell>, rows: seq<Row>)
    reads m
  {
    m.Length0 == |rows|
    && forall t :: 0 <= t < |rows| ==>
         |rows[t]| == m.Length1 && forall f :: 0 <= f < m.Length1 ==> m[t, f] == Num(rows[t][f])
  }

  method PowerStft(data: array2<Cell>, ghost rows: seq<Row>, t0: nat, t1: nat, f0: nat, f1: nat) returns (sum: real)
    requires Holds(data, rows) && t0 <= t1 <= data.Length0 && f0 <= f1 <= data.Length1
    ensures sum == Power(rows, t0, t1, f0, f1)
  {
    hide NormSq;
    sum := 0.0;
    for t := t0 to t1
      invariant sum == Power(rows, t0, t, f0, f1)
    {
      for f := f0 to f1
        invariant sum == Power(rows, t0, t, f0, f1) + RowPower(rows[t], f0, f)
      {
        sum := sum + NormSq(data[t, f].z);
      }
    }
  }

  // Writes one cell of the threshold map, which no pass has written before.
  method Put(thre: array2<Cell>, t: nat, f: nat, v: Cell, ghost written: iset<(int, int)>)
    returns (ghost now: iset<(int, int)>)
    requires t < thre.Length0 && f < thre.Length1 && (t, f) !in written
    modifies thre
    ensures thre[t, f] == v && now == written + iset{(t, f)}
    ensures forall u, g :: 0 <= u < thre.Length0 && 0 <= g < thre.Length1 && (u, g) != (t, f) ==>
              thre[u, g] == old(thre[u, g])
  {
    thre[t, f] := v;
    now := written + iset{(t, f)};
  }

  method ScaleColumn(stage: Stage, thre: array2<Cell>, coef: array2<Cell>, ghost rows: seq<Row>, f: nat, a: Factor,
                     ghost written: iset<(int, int)>) returns (ghost now: iset<(int, int)>)
    requires thre != coef && Holds(coef, rows) && thre.Length0 == coef.Length0 && thre.Length1 == coef.Length1
    requires f < thre.Length1 && written !! Area(0, thre.Length0, f, f + 1)
    modifies thre
    ensures forall t :: 0 <= t < thre.Length0 ==> thre[t, f] == Times(a, Num(rows[t][f]))
    ensures SameOutside(thre, 0, thre.Length0, f, f + 1)
    ensures now == written + Area(0, thre.Length0, f, f + 1)
  {
    hide Times;
    now := written;
    for t := 0 to thre.Length0
      invariant forall u :: 0 <= u < t ==> thre[u, f] == Times(a, Num(rows[u][f]))
      invariant SameOutside(thre, 0, thre.Length0, f, f + 1)
      invariant now == written + Area(0, t, f, f + 1)
    {
      now := Put(thre, t, f, Times(a, coef[t, f]), now);
    }
  }

  // The cells of a rectangle of the map.
  ghost function Area(t0: int, t1: int, f0: int, f1: int): iset<(int, int)> {
    iset t, f | t0 <= t < t1 && f0 <= f < f1 :: (t, f)
  }

  twostate predicate SameOutside(thre: array2<Cell>, t0: int, t1: int, f0: int, f1: int)
    reads thre
  {
    forall t, f :: 0 <= t < thre.Length0 && 0 <= f < thre.Length1 && !(t0 <= t < t1 && f0 <= f < f1) ==>
      thre[t, f] == old(thre[t, f])
  }

  method FillTile(thre: array2<Cell>, blk: array2<Cell>, ghost b: seq<Row>, r0: nat, tt: nat, c0: nat, ff: nat,
                  base: nat, a: Factor, ghost written: iset<(int, int)>) returns (ghost now: iset<(int, int)>)
    requires thre != blk && Holds(blk, b) && r0 + tt <= blk.Length0 <= thre.Length0 && c0 + ff <= blk.Length1
    requires base + c0 + ff <= thre.Length1
    requires written !! Area(r0, r0 + tt, base + c0, base + c0 + ff)
    modifies thre
    ensures forall t, w :: r0 <= t < r0 + tt && c0 <= w < c0 + ff ==> thre[t, base + w] == Times(a, Num(b[t][w]))
    ensures SameOutside(thre, r0, r0 + tt, base + c0, base + c0 + ff)
    ensures now == written + Area(r0, r0 + tt, base + c0, base + c0 + ff)
  {
    hide Times;
    now := written;
    for k := 0 to tt
      invariant forall t, w :: r0 <= t < r0 + k && c0 <= w < c0 + ff ==> thre[t, base + w] == Times(a, Num(b[t][w]))
      invariant SameOutside(thre, r0, r0 + k, base + c0, base + c0 + ff)
      invariant now == written + Area(r0, r0 + k, base + c0, base + c0 + ff)
    {
      for j := 0 to ff
        invariant forall t, w :: (r0 <= t < r0 + k && c0 <= w < c0 + ff) || (t == r0 + k && c0 <= w < c0 + j) ==>
                    thre[t, base + w] == Times(a, Num(b[t][w]))
        invariant SameOutside(thre, r0, r0 + k + 1, base + c0, base + c0 + ff)
        invariant now == written + Area(r0, r0 + k, base + c0, base + c0 + ff)
                                 + Area(r0 + k, r0 + k + 1, base + c0, base + c0 + j)
      {
        now := Put(thre, r0 + k, base + c0 + j, Times(a, blk[r0 + k, c0 + j]), now);
      }
    }
  }

  lemma CornerIs(x: nat, n: nat, i: nat)
    requires n >= 1 && n * i <= x < n * i + n
    ensures Corner(x, n) == n * i
  {
    ModUnique(x, n, i, x - n * i);
  }

  // Tile number i of `count` tiles of length n.
  lemma TileInside(n: nat, i: nat, count: nat)
    requires i < count
    ensures n * i + n <= n * count
  {
    MulMono(n, i + 1, count);
  }

  // Cells [t0, t1) by [w0, w1) of a macro block are scaled by the gains of their tiles.
  ghost predicate Judged(stage: Stage, thre: array2<Cell>, b: seq<Row>, base: nat, s: Segmentation,
                         t0: nat, t1: nat, w0: nat, w1: nat)
    requires stage.Ok() && Shaped(b, FREQS) && t1 <= GROUP && w1 <= FREQS
    requires thre.Length0 == GROUP && base + FREQS <= thre.Length1
    reads thre
  {
    forall t, w :: t0 <= t < t1 && w0 <= w < w1 ==>
      thre[t, base + w] == Times(TileFactor(stage.TileNoise(s), TilePower(b, s, t, w)), Num(b[t][w]))
  }

  // blockTreshold_compute_thre: all tiles of macro block m.
  method ComputeThre(stage: Stage, thre: array2<Cell>, blk: array2<Cell>, ghost b: seq<Row>, m: nat, s: Segmentation,
                     ghost written: iset<(int, int)>) returns (ghost now: iset<(int, int)>)
    requires stage.Ok() && thre != blk && Holds(blk, b) && Shaped(b, FREQS)
    requires thre.Length0 == GROUP && FREQS * (m + 1) < thre.Length1
    requires written !! Area(0, GROUP, 1 + FREQS * m, 1 + FREQS * (m + 1))
    modifies thre
    ensures Judged(stage, thre, b, 1 + FREQS * m, s, 0, GROUP, 0, FREQS)
    ensures SameOutside(thre, 0, GROUP, 1 + FREQS * m, 1 + FREQS * (m + 1))
    ensures now == written + Area(0, GROUP, 1 + FREQS * m, 1 + FREQS * (m + 1))
  {
    hide Times, TilePower, TileFactor, Stage.TileNoise, Power, Shaped, Stage.Ok;
    var tt, base := TileTimes(s), 1 + FREQS * m;
    now := written;
    for i := 0 to Pow2(s.time)
      invariant tt * i <= GROUP && Judged(stage, thre, b, base, s, 0, tt * i, 0, FREQS)
      invariant SameOutside(thre, 0, GROUP, base, base + FREQS)
      invariant now == written + Area(0, tt * i, base, base + FREQS)
    {
      TileInside(tt, i, Pow2(s.time));
      now := TileRow(stage, thre, blk, b, base, s, i, now);
      assert tt * (i + 1) == tt * i + tt;
    }
  }

  // The tiles numbered i in time.
  method TileRow(stage: Stage, thre: array2<Cell>, blk: array2<Cell>, ghost b: seq<Row>, base: nat, s: Segmentation,
                 i: nat, ghost written: iset<(int, int)>) returns (ghost now: iset<(int, int)>)
    requires stage.Ok() && thre != blk && Holds(blk, b) && Shaped(b, FREQS)
    requires thre.Length0 == GROUP && base + FREQS <= thre.Length1
    requires TileTimes(s) * i + TileTimes(s) <= GROUP
    requires written !! Area(TileTimes(s) * i, TileTimes(s) * i + TileTimes(s), base, base + FREQS)
    modifies thre
    ensures Judged(stage, thre, b, base, s, TileTimes(s) * i, TileTimes(s) * i + TileTimes(s), 0, FREQS)
    ensures SameOutside(thre, TileTimes(s) * i, TileTimes(s) * i + TileTimes(s), base, base + FREQS)
    ensures now == written + Area(TileTimes(s) * i, TileTimes(s) * i + TileTimes(s), base, base + FREQS)
  {
    hide Times, TilePower, TileFactor, Stage.TileNoise, Power, Shaped, Stage.Ok;
    var r0, tt, ff := TileTimes(s) * i, TileTimes(s), TileFreqs(s);
    now := written;
    for j := 0 to Pow2(s.freq)
      invariant ff * j <= FREQS && Judged(stage, thre, b, base, s, r0, r0 + tt, 0, ff * j)
      invariant SameOutside(thre, r0, r0 + tt, base, base + FREQS)
      invariant now == written + Area(r0, r0 + tt, base, base + ff * j)
    {
      TileInside(ff, j, Pow2(s.freq));
      now := OneTile(stage, thre, blk, b, base, s, i, j, now);
      assert ff * (j + 1) == ff * j + ff;
    }
  }

  method OneTile(stage: Stage, thre: array2<Cell>, blk: array2<Cell>, ghost b: seq<Row>, base: nat, s: Segmentation,
                 i: nat, j: nat, ghost written: iset<(int, int)>) returns (ghost now: iset<(int, int)>)
    requires stage.Ok() && thre != blk && Holds(blk, b) && Shaped(b, FREQS)
    requires thre.Length0 == GROUP && base + FREQS <= thre.Length1
    requires TileTimes(s) * i + TileTimes(s) <= GROUP && TileFreqs(s) * j + TileFreqs(s) <= FREQS
    requires written !! Area(TileTimes(s) * i, TileTimes(s) * i + TileTimes(s),
                             base + TileFreqs(s) * j, base + TileFreqs(s) * j + TileFreqs(s))
    modifies thre
    ensures Judged(stage, thre, b, base, s, TileTimes(s) * i, TileTimes(s) * i + TileTimes(s),
                   TileFreqs(s) * j, TileFreqs(s) * j + TileFreqs(s))
    ensures SameOutside(thre, TileTimes(s) * i, TileTimes(s) * i + TileTimes(s),
                        base + TileFreqs(s) * j, base + TileFreqs(s) * j + TileFreqs(s))
    ensures now == written + Area(TileTimes(s) * i, TileTimes(s) * i + TileTimes(s),
                                  base + TileFreqs(s) * j, base + TileFreqs(s) * j + TileFreqs(s))
  {
    hide Times, TileFactor, Stage.TileNoise, Power, TilePower;
    var r0, tt, c0, ff := TileTimes(s) * i, TileTimes(s), TileFreqs(s) * j, TileFreqs(s);
    assert |b[0]| == FREQS;
    var power := PowerStft(blk, b, r0, r0 + tt, c0, c0 + ff);
    forall t, w | r0 <= t < r0 + tt && c0 <= w < c0 + ff
      ensures TilePower(b, s, t, w) == power
    {
      SameTile(b, s, i, j, t, w);
    }
    var noise := stage.TileNoise(s);
    var a := Excess(noise, power);
    a := KeptIfPositive(a);
    assert a == TileFactor(noise, power) by { FactorsAsComputed(noise, power); }
    now := FillTile(thre, blk, b, r0, tt, c0, ff, base, a, written);
  }

  lemma SameTile(b: seq<Row>, s: Segmentation, i: nat, j: nat, t: nat, w: nat)
    requires Shaped(b, FREQS)
    requires TileTimes(s) * i <= t < TileTimes(s) * i + TileTimes(s) <= GROUP
    requires TileFreqs(s) * j <= w < TileFreqs(s) * j + TileFreqs(s) <= FREQS
    ensures TilePower(b, s, t, w) == Power(b, TileTimes(s) * i, TileTimes(s) * i + TileTimes(s),
                                           TileFreqs(s) * j, TileFreqs(s) * j + TileFreqs(s))
  {
    hide Power, Corner, TileTimes, TileFreqs;
    var tt, ff := TileTimes(s), TileFreqs(s);
    var r0, c0 := tt * i, ff * j;
    CornerIs(t, tt, i);
    CornerIs(w, ff, j);
    assert Corner(t, tt) == r0 && Corner(w, ff) == c0;
  }

  predicate Numbers(blk: array2<Cell>)
    reads blk
  {
    blk.Length0 == GROUP && blk.Length1 == FREQS
    && forall t, i :: 0 <= t < GROUP && 0 <= i < FREQS ==> blk[t, i].Num?
  }

  // blockThreshold_adaptive_block: the macro block is copied out, and judged.
  method AdaptiveBlock(stage: Stage, coef: array2<Cell>, blk: array2<Cell>, ghost rows: seq<Row>, m: nat)
    returns (s: Segmentation)
    requires stage.Ok() && coef != blk && Holds(coef, rows) && Shaped(rows, stage.half + 1)
    requires blk.Length0 == GROUP && blk.Length1 == FREQS && FREQS * (m + 1) <= stage.half
    modifies blk
    ensures Holds(blk, stage.Block(rows, m)) && s == stage.choose(stage.Block(rows, m))
  {
    assert |rows[0]| == stage.half + 1;
    for t := 0 to GROUP
      invariant forall u, i :: 0 <= u < t && 0 <= i < FREQS ==> blk[u, i] == Num(rows[u][1 + FREQS * m + i])
    {
      for i := 0 to FREQS
        invariant forall u, i :: 0 <= u < t && 0 <= i < FREQS ==> blk[u, i] == Num(rows[u][1 + FREQS * m + i])
        invariant forall k :: 0 <= k < i ==> blk[t, k] == Num(rows[t][1 + FREQS * m + k])
      {
        blk[t, i] := coef[t, 1 + FREQS * m + i];
      }
    }
    var b := seq(GROUP, t requires 0 <= t < GROUP && Numbers(blk) reads blk =>
      seq(FREQS, i requires 0 <= i < FREQS && Numbers(blk) reads blk => blk[t, i].z));
    s := stage.choose(b);
    assert b == stage.Block(rows, m) by {
      var c := stage.Block(rows, m);
      forall t | 0 <= t < GROUP ensures b[t] == c[t] {
        assert |b[t]| == |c[t]| && forall i :: 0 <= i < FREQS ==> b[t][i] == c[t][i];
      }
    }
  }

  // Columns [f0, f1) of the threshold map are complete.
  ghost predicate Mapped(stage: Stage, thre: array2<Cell>, rows: seq<Row>, f0: nat, f1: nat)
    requires stage.Ok() && Shaped(rows, stage.half + 1) && f1 <= stage.half + 1
    requires thre.Length0 == GROUP && thre.Length1 == stage.half + 1
    reads thre
  {
    forall t, f :: 0 <= t < GROUP && f0 <= f < f1 ==> thre[t, f] == stage.ThresholdCell(rows, t, f)
  }

  // One column judged by itself: the DC bin and the last few bins.
  method OneColumn(stage: Stage, thre: array2<Cell>, coef: array2<Cell>, ghost rows: seq<Row>, f: nat,
                   ghost written: iset<(int, int)>) returns (ghost now: iset<(int, int)>)
    requires stage.Ok() && thre != coef && Holds(coef, rows) && Shaped(rows, stage.half + 1)
    requires thre.Length0 == GROUP && thre.Length1 == stage.half + 1 && f <= stage.half && !stage.InMacro(f)
    requires written !! Area(0, GROUP, f, f + 1)
    modifies thre
    ensures Mapped(stage, thre, rows, f, f + 1) && SameOutside(thre, 0, GROUP, f, f + 1)
    ensures now == written + Area(0, GROUP, f, f + 1)
  {
    hide Times, Gain, Power, Stage.Noise, Stage.InMacro;
    assert |rows[0]| == stage.half + 1;
    var power := PowerStft(coef, rows, 0, GROUP, f, f + 1);
    var noise := stage.ColumnNoise();
    var a := Excess(noise, power);
    if IsNegative(a) {
      a := Finite(0.0);
    }
    FactorsAsComputed(noise, power);
    now := ScaleColumn(stage, thre, coef, rows, f, a, written);
  }

  lemma MacrosFit(stage: Stage, m: nat)
    requires stage.Ok() && m < stage.Macros()
    ensures FREQS * (m + 1) <= stage.half
  {}

  lemma CellOfMacro(stage: Stage, rows: seq<Row>, m: nat, t: nat, w: nat)
    requires stage.Ok() && Shaped(rows, stage.half + 1) && m < stage.Macros() && t < GROUP && w < FREQS
    ensures FREQS * (m + 1) <= stage.half && stage.InMacro(1 + FREQS * m + w)
    ensures var b := stage.Block(rows, m);
      stage.CellPower(rows, t, 1 + FREQS * m + w) == TilePower(b, stage.choose(b), t, w)
      && stage.CellNoise(rows, 1 + FREQS * m + w) == stage.TileNoise(stage.choose(b))
      && rows[t][1 + FREQS * m + w] == b[t][w]
  {
    hide TilePower, Stage.TileNoise, Power, Stage.Block;
    MacrosFit(stage, m);
    assert (1 + FREQS * m + w - 1) / FREQS == m && (1 + FREQS * m + w - 1) % FREQS == w;
  }

  method OneMacro(stage: Stage, thre: array2<Cell>, coef: array2<Cell>, blk: array2<Cell>, ghost rows: seq<Row>, m: nat,
                  ghost written: iset<(int, int)>) returns (ghost now: iset<(int, int)>)
    requires stage.Ok() && thre != coef && thre != blk && coef != blk
    requires Holds(coef, rows) && Shaped(rows, stage.half + 1) && blk.Length0 == GROUP && blk.Length1 == FREQS
    requires thre.Length0 == GROUP && thre.Length1 == stage.half + 1 && m < stage.Macros()
    requires written !! Area(0, GROUP, 1 + FREQS * m, 1 + FREQS * (m + 1))
    modifies thre, blk
    ensures FREQS * (m + 1) <= stage.half
    ensures Mapped(stage, thre, rows, 1 + FREQS * m, 1 + FREQS * (m + 1))
    ensures SameOutside(thre, 0, GROUP, 1 + FREQS * m, 1 + FREQS * (m + 1))
    ensures now == written + Area(0, GROUP, 1 + FREQS * m, 1 + FREQS * (m + 1))
  {
    hide Times, TileFactor, Power, TilePower, Stage.Noise, Stage.InMacro, Stage.TileNoise, Stage.Macros,
         Stage.CellPower, Stage.CellNoise, Stage.Block;
    MacrosFit(stage, m);
    ghost var b := stage.Block(rows, m);
    var s := AdaptiveBlock(stage, coef, blk, rows, m);
    now := ComputeThre(stage, thre, blk, b, m, s, written);
    forall t, f | 0 <= t < GROUP && 1 + FREQS * m <= f < 1 + FREQS * (m + 1)
      ensures thre[t, f] == stage.ThresholdCell(rows, t, f)
    {
      var w := f - 1 - FREQS * m;
      CellOfMacro(stage, rows, m, t, w);
      assert thre[t, 1 + FREQS * m + w] == Times(TileFactor(stage.TileNoise(s), TilePower(b, s, t, w)), Num(b[t][w]));
    }
  }

  // The three passes that fill the threshold map, each cell once.
  method Thresholds(stage: Stage, thre: array2<Cell>, coef: array2<Cell>, blk: array2<Cell>, ghost rows: seq<Row>)
    returns (ghost now: iset<(int, int)>)
    requires stage.Ok() && thre != coef && thre != blk && coef != blk
    requires Holds(coef, rows) && Shaped(rows, stage.half + 1) && blk.Length0 == GROUP && blk.Length1 == FREQS
    requires thre.Length0 == GROUP && thre.Length1 == stage.half + 1
    modifies thre, blk
    ensures Mapped(stage, thre, rows, 0, stage.half + 1)
    ensures now == Area(0, GROUP, 0, stage.half + 1)
  {
    hide Times, Gain, Power, TilePower, Stage.Noise, Stage.TileNoise, Stage.ThresholdCell, Stage.CellPower,
         Stage.CellNoise, Stage.Block;
    now := OneColumn(stage, thre, coef, rows, 0, iset{});
    for m := 0 to stage.Macros()
      invariant FREQS * m <= stage.half && Holds(coef, rows)
      invariant Mapped(stage, thre, rows, 0, 1 + FREQS * m)
      invariant now == Area(0, GROUP, 0, 1 + FREQS * m)
    {
      now := OneMacro(stage, thre, coef, blk, rows, m, now);
    }
    var last := 1 + FREQS * stage.Macros();
    if last < stage.half + 1 {
      for f := last to stage.half + 1
        invariant Holds(coef, rows) && Mapped(stage, thre, rows, 0, f)
        invariant now == Area(0, GROUP, 0, f)
      {
        now := OneColumn(stage, thre, coef, rows, f, now);
      }
    }
  }

  // What is left in the coefficients.
  ghost predicate Filled(stage: Stage, coef: array2<Cell>, rows: seq<Row>)
    requires stage.Ok() && Shaped(rows, stage.half + 1)
    reads coef
  {
    coef.Length0 == GROUP && coef.Length1 == stage.half + 1
    && forall t, f :: 0 <= t < GROUP && 0 <= f <= stage.half ==> coef[t, f] == stage.Outcome(rows, t, f)
  }

  // blockThreshold_wiener: the loop stops short of the last bin.
  method Wiener(stage: Stage, thre: array2<Cell>, coef: array2<Cell>, ghost rows: seq<Row>)
    requires stage.Ok() && thre != coef && Holds(coef, rows) && Shaped(rows, stage.half + 1)
    requires thre.Length0 == GROUP && thre.Length1 == stage.half + 1 && Mapped(stage, thre, rows, 0, stage.half + 1)
    modifies coef
    ensures Filled(stage, coef, rows)
  {
    hide Stage.FilterCell, Stage.ThresholdCell;
    assert |rows[0]| == stage.half + 1;
    for t := 0 to GROUP
      invariant forall u, f :: 0 <= u < t && 0 <= f <= stage.half ==> coef[u, f] == stage.Outcome(rows, u, f)
      invariant forall u, f :: t <= u < GROUP && 0 <= f <= stage.half ==> coef[u, f] == Num(rows[u][f])
    {
      for f := 0 to (2 * stage.half + 1) / 2
        invariant forall u, g :: 0 <= u < t && 0 <= g <= stage.half ==> coef[u, g] == stage.Outcome(rows, u, g)
        invariant forall u, g :: t < u < GROUP && 0 <= g <= stage.half ==> coef[u, g] == Num(rows[u][g])
        invariant forall g :: 0 <= g < f ==> coef[t, g] == stage.Outcome(rows, t, g)
        invariant forall g :: f <= g <= stage.half ==> coef[t, g] == Num(rows[t][g])
      {
        coef[t, f] := OneBin(stage, thre[t, f], coef[t, f], f);
      }
    }
  }

  method OneBin(stage: Stage, thre: Cell, coef: Cell, f: nat) returns (c: Cell)
    requires stage.Ok()
    ensures c == stage.FilterCell(thre, coef, f)
  {
    if thre.NaN? || coef.NaN? {
      return NaN;
    }
    WienerBounds(thre.z, stage.Noise());
    var wiener := NormSq(thre.z);
    wiener := wiener / (wiener + stage.Noise());
    var z := Cpx(coef.z.r * wiener, coef.z.i * wiener);
    if f < LowIndex(stage.fs, stage.half) {
      z := Cpx(z.r * 0.45, z.i * 0.45);
    }
    c := Num(z);
  }

  /** blockThreshold_core: on the way to the coefficients' outcome every cell of the threshold map is
      written once, before the Wiener pass reads it. If every tile has power, the outcome is `Run`. */
  method BlockThresholdCore(stage: Stage, coef: array2<Cell>, thre: array2<Cell>, blk: array2<Cell>,
                            ghost rows: seq<Row>)
    returns (ghost written: iset<(int, int)>)
    requires stage.Ok() && thre != coef && thre != blk && coef != blk
    requires Holds(coef, rows) && Shaped(rows, stage.half + 1) && blk.Length0 == GROUP && blk.Length1 == FREQS
    requires thre.Length0 == GROUP && thre.Length1 == stage.half + 1
    modifies coef, thre, blk
    ensures Filled(stage, coef, rows) && Mapped(stage, thre, rows, 0, stage.half + 1)
    ensures TilesHavePower(stage, rows) ==> Holds(coef, stage.Run(rows))
    ensures written == Area(0, GROUP, 0, stage.half + 1)
  {
    hide Stage.ThresholdCell, Stage.Outcome, Stage.Run, Stage.CellPower, TilesHavePower;
    written := Thresholds(stage, thre, coef, blk, rows);
    Wiener(stage, thre, coef, rows);
    forall t, f | TilesHavePower(stage, rows) && 0 <= t < GROUP && 0 <= f <= stage.half
      ensures stage.Outcome(rows, t, f) == Num(stage.Run(rows)[t][f])
    {
      OutcomeIsRun(stage, rows, t, f);
    }
  }

  // ----- where the source divides by zero

  ghost predicate TilesHavePower(stage: Stage, rows: seq<Row>)
    requires stage.Ok() && Shaped(rows, stage.half + 1)
  {
    forall t, f :: 0 <= t < GROUP && 0 <= f <= stage.half && stage.InMacro(f) ==> stage.CellPower(rows, t, f) > 0.0
  }

  lemma OutcomeIs(stage: Stage, rows: seq<Row>, t: nat, f: nat)
    requires stage.Ok() && Shaped(rows, stage.half + 1) && t < GROUP && f <= stage.half
    ensures stage.InMacro(f) ==> f < stage.half
    ensures stage.Outcome(rows, t, f) ==
            if stage.InMacro(f) && stage.CellPower(rows, t, f) == 0.0 then NaN else Num(stage.Filtered(rows, t, f))
  {
    hide Stage.CellPower, Stage.CellNoise, Stage.BinGain, Scale, Gain, Times;
    TimesIs(stage.CellGain(rows, t, f), rows[t][f]);
  }

  lemma TimesIs(g: real, z: Cpx)
    ensures Times(Finite(g), Num(z)) == Num(Scale(g, z)) && Times(NotANumber, Num(z)) == NaN
  {}

  lemma OutcomeIsRun(stage: Stage, rows: seq<Row>, t: nat, f: nat)
    requires stage.Ok() && Shaped(rows, stage.half + 1) && t < GROUP && f <= stage.half && TilesHavePower(stage, rows)
    ensures stage.Outcome(rows, t, f) == Num(stage.Run(rows)[t][f])
  {
    hide Stage.Outcome, Stage.Run, Stage.Filtered, Stage.CellPower;
    OutcomeIs(stage, rows, t, f);
    stage.RunAt(rows, t, f);
  }

  lemma {:induction false} RowSilent(row: Row, f0: nat, f1: nat)
    requires f0 <= f1 <= |row|
    ensures RowPower(row, f0, f1) == 0.0 <==> forall f :: f0 <= f < f1 ==> row[f] == ZERO
    decreases f1 - f0
  {
    hide NormSq;
    if f0 < f1 {
      RowSilent(row, f0, f1 - 1);
      NormSqNonNegative(row[f1 - 1]);
      NormSqZero();
      if row[f1 - 1] != ZERO { NormPositive(row[f1 - 1]); }
    }
  }

  // No power is no coefficient.
  lemma {:induction false} Silent(rows: seq<Row>, t0: nat, t1: nat, f0: nat, f1: nat)
    requires t0 <= t1 <= |rows| && f0 <= f1 && forall t :: 0 <= t < |rows| ==> f1 <= |rows[t]|
    ensures Power(rows, t0, t1, f0, f1) == 0.0 <==>
            forall t, f :: t0 <= t < t1 && f0 <= f < f1 ==> rows[t][f] == ZERO
    decreases t1 - t0
  {
    hide RowPower;
    if t0 < t1 {
      Silent(rows, t0, t1 - 1, f0, f1);
      RowSilent(rows[t1 - 1], f0, f1);
    }
  }

  // Some coefficient of the tile that holds cell (t, w) is not zero.
  ghost predicate TileSounds(b: seq<Row>, s: Segmentation, t: nat, w: nat)
    requires Shaped(b, FREQS) && t < GROUP && w < FREQS
  {
    exists u, v :: 0 <= u < GROUP && 0 <= v < FREQS && b[u][v] != ZERO
      && Corner(t, TileTimes(s)) <= u < Corner(t, TileTimes(s)) + TileTimes(s)
      && Corner(w, TileFreqs(s)) <= v < Corner(w, TileFreqs(s)) + TileFreqs(s)
  }

  lemma SoundIsPower(b: seq<Row>, s: Segmentation, t: nat, w: nat)
    requires Shaped(b, FREQS) && t < GROUP && w < FREQS
    ensures TileSounds(b, s, t, w) <==> TilePower(b, s, t, w) > 0.0
  {
    hide Corner, TileTimes, TileFreqs, Power;
    TileCorners(s, t, w);
    var r0, c0 := Corner(t, TileTimes(s)), Corner(w, TileFreqs(s));
    Silent(b, r0, r0 + TileTimes(s), c0, c0 + TileFreqs(s));
  }

  // The tile that judges cell (t, f), if a tile does, has a non-zero coefficient.
  ghost predicate CellSounds(stage: Stage, rows: seq<Row>, t: nat, f: nat)
    requires stage.Ok() && Shaped(rows, stage.half + 1) && t < GROUP && f <= stage.half
  {
    stage.InMacro(f) ==>
      var b := stage.BlockOf(rows, f);
      TileSounds(b, stage.choose(b), t, (f - 1) % FREQS)
  }

  /** The stage leaves only numbers behind exactly when every tile of every macro block, as divided
      by the choice for that block, has a non-zero coefficient; silent columns do no harm. */
  lemma NumbersExactly(stage: Stage, rows: seq<Row>)
    requires stage.Ok() && Shaped(rows, stage.half + 1)
    ensures (forall t, f :: 0 <= t < GROUP && 0 <= f <= stage.half ==> stage.Outcome(rows, t, f).Num?)
            <==> forall t, f :: 0 <= t < GROUP && 0 <= f <= stage.half ==> CellSounds(stage, rows, t, f)
  {
    hide Stage.Outcome, Stage.Filtered, TilePower, TileSounds, Stage.BlockOf;
    forall t, f | 0 <= t < GROUP && 0 <= f <= stage.half
      ensures stage.Outcome(rows, t, f).Num? <==> CellSounds(stage, rows, t, f)
    {
      OutcomeIs(stage, rows, t, f);
      if stage.InMacro(f) {
        var b := stage.BlockOf(rows, f);
        SoundIsPower(b, stage.choose(b), t, (f - 1) % FREQS);
      }
    }
  }

  /** Digital silence is such a case: every bin of every macro block is left not a number. */
  lemma SilenceIsLost(stage: Stage, rows: seq<Row>, t: nat, f: nat)
    requires stage.Ok() && Shaped(rows, stage.half + 1) && t < GROUP && f <= stage.half
    requires forall u, g :: 0 <= u < GROUP && 0 <= g <= stage.half ==> rows[u][g] == ZERO
    ensures stage.Outcome(rows, t, f) == if stage.InMacro(f) then NaN else Num(ZERO)
  {
    hide Stage.Outcome, Stage.CellGain, Stage.BinGain, Stage.Threshold, Stage.BlockOf, TilePower, Scale;
    OutcomeIs(stage, rows, t, f);
    if stage.InMacro(f) {
      var b := stage.BlockOf(rows, f);
      SilentBlock(stage, rows, f);
      SilentTile(b, stage.choose(b), t, (f - 1) % FREQS);
    } else {
      ScaledZero(stage.BinGain(stage.Threshold(rows, t, f), f));
    }
  }

  lemma SilentBlock(stage: Stage, rows: seq<Row>, f: nat)
    requires stage.Ok() && Shaped(rows, stage.half + 1) && f <= stage.half && stage.InMacro(f)
    requires forall u, g :: 0 <= u < GROUP && 0 <= g <= stage.half ==> rows[u][g] == ZERO
    ensures var b := stage.BlockOf(rows, f); forall u, v :: 0 <= u < GROUP && 0 <= v < FREQS ==> b[u][v] == ZERO
  {
    hide Stage.Block;
    var m := (f - 1) / FREQS;
    MacrosFit(stage, m);
  }

  lemma SilentTile(b: seq<Row>, s: Segmentation, t: nat, w: nat)
    requires Shaped(b, FREQS) && t < GROUP && w < FREQS
    requires forall u, v :: 0 <= u < GROUP && 0 <= v < FREQS ==> b[u][v] == ZERO
    ensures TilePower(b, s, t, w) == 0.0
  {
    hide TilePower;
    SoundIsPower(b, s, t, w);
  }

  // low_f_index, by truncating divisions. Its divisor is twice the spacing of the bins.
  function LowIndex(fs: nat, half: nat): (k: int)
    requires half >= 1 && fs >= half
    ensures k * (fs / half) <= 500 < (k + 1) * (fs / half)
  {
    500 / (fs / half)
  }

  /** Bin k is at k * fs / (2 * half) Hz: the bins below the index are those whose upper neighbour is
      not above 250 Hz, when half the window divides the sample rate. */
  lemma LowBins(fs: nat, half: nat, k: nat)
    requires half >= 1 && fs >= half && fs % half == 0
    ensures k < LowIndex(fs, half) <==> (k + 1) * fs <= 250 * (2 * half)
  {
    var d := fs / half;
    assert fs == half * d;
    Scaled(k + 1, d, half);
    if k < 500 / d {
      MulMono(d, k + 1, 500 / d);
    } else {
      MulMono(d, 500 / d + 1, k + 1);
    }
    assert (k + 1) * d <= 500 <==> ((k + 1) * d) * half <= 500 * half by {
      if (k + 1) * d <= 500 { MulMono(half, (k + 1) * d, 500); } else { MulMono(half, 501, (k + 1) * d); }
    }
  }

  lemma Scaled(k: nat, d: nat, half: nat)
    ensures k * (half * d) == (k * d) * half
  {}

  // ----- what the stage does to a signal

  lemma ScaleShrinks(g: real, z: Cpx)
    requires 0.0 <= g < 1.0
    ensures NormSq(Scale(g, z)) <= NormSq(z) && (z != ZERO ==> NormSq(Scale(g, z)) < NormSq(z))
  {
    hide NormSq, Scale;
    NormScale(g, z);
    SquareBelowOne(g);
    if z != ZERO {
      NormPositive(z);
      TimesBelowOne(g * g, NormSq(z));
    } else {
      NormSqZero();
    }
  }

  lemma NormScale(g: real, z: Cpx)
    ensures NormSq(Scale(g, z)) == (g * g) * NormSq(z)
  {}

  lemma SquareBelowOne(g: real)
    requires 0.0 <= g < 1.0
    ensures 0.0 <= g * g < 1.0
  {
    if g > 0.0 { TimesBelowOne(g, g); }
  }

  lemma TimesBelowOne(g: real, p: real)
    requires 0.0 <= g < 1.0 && p > 0.0
    ensures g * p < p
  {}

  lemma NormPositive(z: Cpx)
    requires z != ZERO
    ensures NormSq(z) > 0.0
  {
    hide NormSq;
    NormSqNonNegative(z);
    if NormSq(z) == 0.0 { NormZero(z); }
  }

  /** Every bin keeps its phase and no bin gains power; each non-zero bin below the last loses some,
      and the last bin is left as it is. */
  lemma NeverAmplifies(stage: Stage, rows: seq<Row>, t: nat, f: nat)
    requires stage.Ok() && Shaped(rows, stage.half + 1) && t < GROUP && f <= stage.half
    ensures Shaped(stage.Run(rows), stage.half + 1)
    ensures f < stage.half ==> exists g :: 0.0 <= g < 1.0 && stage.Run(rows)[t][f] == Scale(g, rows[t][f])
    ensures NormSq(stage.Run(rows)[t][f]) <= NormSq(rows[t][f])
    ensures NormSq(stage.Run(rows)[t][f]) == NormSq(rows[t][f]) <==> f == stage.half || rows[t][f] == ZERO
    ensures f == stage.half ==> stage.Run(rows)[t][f] == rows[t][f]
  {
    hide Stage.Threshold, Stage.Run, Stage.BinGain, NormSq, Scale;
    stage.RunAt(rows, t, f);
    if f < stage.half {
      var g := stage.BinGain(stage.Threshold(rows, t, f), f);
      assert stage.Run(rows)[t][f] == Scale(g, rows[t][f]);
      ScaleShrinks(g, rows[t][f]);
      if rows[t][f] == ZERO { ScaledZero(g); }
    }
  }

  // ----- the numbers behind it

  /** The lambdas grow with the number of halvings, of which a fourth in frequency does not count. */
  lemma Lambdas(s: Segmentation)
    ensures LAMBDA[s.time][s.freq] == match s.time + (if s.freq == 4 then 3 else s.freq)
                                      case 0 => 1.5 case 1 => 1.8 case 2 => 2.0
                                      case 3 => 2.5 case 4 => 3.5 case _ => 4.7
  {}

  /** The macro blocks take the bins from 1 on by sixteens, as far as they stay below the last bin. */
  lemma MacroBins(stage: Stage, rows: seq<Row>, f: nat)
    requires stage.Ok() && Shaped(rows, stage.half + 1) && f <= stage.half
    ensures stage.InMacro(f) <==> 1 <= f && 16 * ((f - 1) / 16) + 16 < stage.half
    ensures stage.InMacro(f) ==>
              var m := (f - 1) / 16;
              forall t, w :: 0 <= t < 8 && 0 <= w < 16 ==> stage.BlockOf(rows, f)[t][w] == rows[t][16 * m + 1 + w]
  {
    hide Stage.Block;
    if stage.InMacro(f) { MacrosFit(stage, (f - 1) / FREQS); }
  }

  /** Power is the sum of the squares: of one cell, and of rectangles side by side. */
  lemma PowerOfCell(rows: seq<Row>, t: nat, f: nat)
    requires t < |rows| && forall u :: 0 <= u < |rows| ==> f < |rows[u]|
    ensures Power(rows, t, t + 1, f, f + 1) == rows[t][f].r * rows[t][f].r + rows[t][f].i * rows[t][f].i
  {
    assert Power(rows, t, t, f, f + 1) == 0.0 && RowPower(rows[t], f, f) == 0.0;
    assert NormSq(rows[t][f]) == rows[t][f].r * rows[t][f].r + rows[t][f].i * rows[t][f].i;
    hide NormSq;
  }

  lemma {:induction false} RowPowerSplits(row: Row, f0: nat, f1: nat, f2: nat)
    requires f0 <= f1 <= f2 <= |row|
    ensures RowPower(row, f0, f2) == RowPower(row, f0, f1) + RowPower(row, f1, f2)
    decreases f2
  {
    hide NormSq;
    if f1 < f2 { RowPowerSplits(row, f0, f1, f2 - 1); }
  }

  lemma {:induction false} PowerSplits(rows: seq<Row>, t0: nat, t1: nat, t2: nat, f0: nat, f1: nat, f2: nat)
    requires t0 <= t1 <= t2 <= |rows| && f0 <= f1 <= f2 && forall t :: 0 <= t < |rows| ==> f2 <= |rows[t]|
    ensures Power(rows, t0, t2, f0, f2) == Power(rows, t0, t1, f0, f2) + Power(rows, t1, t2, f0, f2)
    ensures Power(rows, t0, t2, f0, f2) == Power(rows, t0, t2, f0, f1) + Power(rows, t0, t2, f1, f2)
    decreases t2
  {
    hide RowPower;
    if t0 < t2 {
      RowPowerSplits(rows[t2 - 1], f0, f1, f2);
      if t1 < t2 {
        PowerSplits(rows, t0, t1, t2 - 1, f0, f1, f2);
      } else {
        PowerSplits(rows, t0, t1 - 1, t2 - 1, f0, f1, f2);
      }
    }
  }

  /** What is judged with a cell: of a macro block the tile around it, whose corner is the multiple of
      the tile's size next below; else the cells of its column. */
  lemma CellPowerIs(stage: Stage, rows: seq<Row>, t: nat, f: nat)
    requires stage.Ok() && Shaped(rows, stage.half + 1) && t < 8 && f <= stage.half
    ensures !stage.InMacro(f) ==> stage.CellPower(rows, t, f) == Power(rows, 0, 8, f, f + 1)
    ensures stage.InMacro(f) ==>
              var b := stage.BlockOf(rows, f);
              var s := stage.choose(b);
              var tt, ff := TileTimes(s), TileFreqs(s);
              var r0, c0 := tt * (t / tt), ff * ((f - 1) % 16 / ff);
              && tt * Pow2(s.time) == 8 && ff * Pow2(s.freq) == 16 && r0 + tt <= 8 && c0 + ff <= 16
              && stage.CellPower(rows, t, f) == Power(b, r0, r0 + tt, c0, c0 + ff)
  {
    hide Power, Stage.BlockOf, TileTimes, TileFreqs, TilePower;
    if stage.InMacro(f) {
      var b := stage.BlockOf(rows, f);
      TilePowerIs(b, stage.choose(b), t, (f - 1) % FREQS);
    }
  }

  lemma TilePowerIs(b: seq<Row>, s: Segmentation, t: nat, w: nat)
    requires Shaped(b, FREQS) && t < GROUP && w < FREQS
    ensures var tt, ff := TileTimes(s), TileFreqs(s);
      var r0, c0 := tt * (t / tt), ff * (w / ff);
      r0 + tt <= GROUP && c0 + ff <= FREQS && TilePower(b, s, t, w) == Power(b, r0, r0 + tt, c0, c0 + ff)
  {
    hide Power, TileTimes, TileFreqs, Corner;
    TileCorners(s, t, w);
    CornerAt(t, TileTimes(s));
    CornerAt(w, TileFreqs(s));
  }

  lemma CornerAt(x: nat, n: nat)
    requires n >= 1
    ensures Corner(x, n) == n * (x / n)
  {}

  lemma CellNoiseIs(stage: Stage, rows: seq<Row>, f: nat)
    requires stage.Ok() && Shaped(rows, stage.half + 1) && f <= stage.half
    ensures var n := (2 * stage.half) as real * stage.variance;
      stage.CellNoise(rows, f) ==
        if stage.InMacro(f) then
          var s := stage.choose(stage.BlockOf(rows, f));
          LAMBDA[s.time][s.freq] * (TileTimes(s) * TileFreqs(s)) as real * n
        else 20.0 * n
  {
    hide Stage.BlockOf, TileTimes, TileFreqs;
    if stage.InMacro(f) {
      var s := stage.choose(stage.BlockOf(rows, f));
      RealProduct(TileTimes(s), TileFreqs(s), LAMBDA[s.time][s.freq]);
    }
  }

  lemma RealProduct(a: nat, b: nat, x: real)
    ensures x * a as real * b as real == x * (a * b) as real
  {}

  /** A bin below the last with power above the noise allowed, in numbers: with N the noise of one bin and
      P the power its threshold leaves it, it is cut to P / (P + N), and to 0.45 of that for the low
      bins; with no more power than the noise it is silent. */
  lemma FilteredIs(stage: Stage, rows: seq<Row>, t: nat, f: nat)
    requires stage.Ok() && Shaped(rows, stage.half + 1) && t < GROUP && f < stage.half
    ensures Shaped(stage.Run(rows), stage.half + 1)
    ensures var z, y := rows[t][f], stage.Run(rows)[t][f];
      var noise, power := stage.CellNoise(rows, f), stage.CellPower(rows, t, f);
      if power <= noise then y == ZERO else
      var n := (2 * stage.half) as real * stage.variance;
      var p := (1.0 - noise / power) * (1.0 - noise / power) * (z.r * z.r + z.i * z.i);
      var c := if (f + 1) * (stage.fs / stage.half) <= 500 then 0.45 else 1.0;
      p + n > 0.0 && (p + n) * y.r == c * p * z.r && (p + n) * y.i == c * p * z.i
  {
    hide Stage.Run, Stage.CellPower, Stage.CellNoise, Stage.BinGain, NormSq, Scale;
    stage.RunAt(rows, t, f);
    var z, noise, power := rows[t][f], stage.CellNoise(rows, f), stage.CellPower(rows, t, f);
    if power <= noise {
      Silenced(stage, rows, t, f);
    } else {
      var g, n := 1.0 - noise / power, (2 * stage.half) as real * stage.variance;
      var p := NormSq(Scale(g, z));
      NormScale(g, z);
      NormSqNonNegative(Scale(g, z));
      assert NormSq(z) == z.r * z.r + z.i * z.i by { NormIs(z); }
      LowIs(stage.fs, stage.half, f);
      BinGainIs(stage, Scale(g, z), f);
      var c := if (f + 1) * (stage.fs / stage.half) <= 500 then 0.45 else 1.0;
      Quotient(p, n, c, z.r);
      Quotient(p, n, c, z.i);
      ScaleParts(c * (p / (p + n)), z);
    }
  }

  lemma NormIs(z: Cpx)
    ensures NormSq(z) == z.r * z.r + z.i * z.i
  {}

  lemma ScaleParts(g: real, z: Cpx)
    ensures Scale(g, z).r == g * z.r && Scale(g, z).i == g * z.i
  {}

  lemma LowIs(fs: nat, half: nat, f: nat)
    requires half >= 1 && fs >= half
    ensures fs / half >= 1 && (f < LowIndex(fs, half) <==> (f + 1) * (fs / half) <= 500)
  {
    var d := fs / half;
    if f < 500 / d { MulMono(d, f + 1, 500 / d); } else { MulMono(d, 500 / d + 1, f + 1); }
  }

  lemma BinGainIs(stage: Stage, z: Cpx, f: nat)
    requires stage.Ok()
    ensures var p, n := NormSq(z), (2 * stage.half) as real * stage.variance;
      p + n > 0.0 && stage.BinGain(z, f) == (if f < LowIndex(stage.fs, stage.half) then 0.45 else 1.0) * (p / (p + n))
  {
    hide NormSq, LowIndex;
    NormSqNonNegative(z);
  }

  lemma Quotient(p: real, n: real, c: real, x: real)
    requires p + n > 0.0
    ensures (p + n) * ((c * (p / (p + n))) * x) == c * p * x
  {
    var q := p / (p + n);
    assert q * (p + n) == p;
    Shuffle(p + n, q, c, x);
  }

  lemma Shuffle(m: real, q: real, c: real, x: real)
    ensures m * ((c * q) * x) == c * (q * m) * x
  {}

  lemma ScaledZero(g: real)
    ensures Scale(g, ZERO) == ZERO
  {}

  lemma ScaleIsZero(g: real, z: Cpx)
    ensures Scale(g, z) == ZERO <==> g == 0.0 || z == ZERO
  {
    if Scale(g, z) == ZERO { ScaleZero(g, z); }
  }

  /** A bin below the last is silenced exactly when it was silent or the power of the cells judged
      together with it does not exceed the noise allowed for them. */
  lemma Silenced(stage: Stage, rows: seq<Row>, t: nat, f: nat)
    requires stage.Ok() && Shaped(rows, stage.half + 1) && t < GROUP && f < stage.half
    ensures Shaped(stage.Run(rows), stage.half + 1)
    ensures stage.Run(rows)[t][f] == ZERO <==>
            rows[t][f] == ZERO || stage.CellPower(rows, t, f) <= stage.CellNoise(rows, f)
  {
    hide Stage.Run, Stage.BinGain, Stage.CellPower, Stage.CellNoise, NormSq, Scale;
    stage.RunAt(rows, t, f);
    var c := stage.CellGain(rows, t, f);
    ScaleIsZero(c, rows[t][f]);
    ScaleIsZero(stage.BinGain(stage.Threshold(rows, t, f), f), rows[t][f]);
  }

  /** The stage may serve as the spectral stage of the stream. */
  lemma StageKeepsShape(stage: Stage)
    requires stage.Ok()
    ensures KeepsShape(rows => if Shaped(rows, stage.half + 1) then stage.Run(rows) else rows, stage.half)
  {
    hide Stage.Run;
  }
}
