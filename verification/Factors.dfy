/** The stage list p1, m1, p2, m2, ... that kf_factor writes for a transform length. */
module Factors {
  import opened Arith

  const MAXFACTORS := 32

  // From position i on, fac lists stages for a transform of length n.
  ghost predicate Factored(fac: seq<int>, i: nat, n: int)
    decreases |fac| - i
  {
    && i + 1 < |fac|
    && fac[i] >= 1 && fac[i + 1] >= 1
    && fac[i] * fac[i + 1] == n
    && (fac[i + 1] == 1 || Factored(fac, i + 2, fac[i + 1]))
  }

  ghost predicate Prime(p: int) {
    p >= 2 && NoDivisorBelow(p, p)
  }

  ghost predicate NoDivisorBelow(n: int, b: int) {
    forall d :: 2 <= d < b ==> n % d != 0
  }

  // Every radix from position i to the end of the list is 4 or a prime.
  ghost predicate FastRadices(fac: seq<int>, i: nat)
    decreases |fac| - i
  {
    && i + 1 < |fac|
    && (fac[i] == 4 || Prime(fac[i]))
    && (fac[i + 1] == 1 || FastRadices(fac, i + 2))
  }

  // The radix for what is left: 4 if that divides it, else its least divisor.
  ghost predicate Radix(m: int, p: int) {
    if m % 4 == 0 then p == 4 else Prime(p) && NoDivisorBelow(m, p)
  }

  // Every radix from position i on is that, for what is left of a length n.
  ghost predicate Greedy(fac: seq<int>, i: nat, n: int)
    decreases |fac| - i
  {
    && i + 1 < |fac|
    && Radix(n, fac[i])
    && (fac[i + 1] == 1 || Greedy(fac, i + 2, fac[i + 1]))
  }

  // The stages at j, ..., i-2 take a transform of length a down to length b.
  ghost predicate Chain(fac: seq<int>, j: nat, i: nat, a: int, b: int)
    decreases i - j
  {
    if j >= i then j == i && a == b else
    && j + 2 <= i <= |fac|
    && fac[j + 1] > 1 && Radix(a, fac[j])
    && fac[j] * fac[j + 1] == a
    && Chain(fac, j + 2, i, fac[j + 1], b)
  }

  lemma {:induction false} ChainGrow(fac: seq<int>, gac: seq<int>, j: nat, i: nat, a: int, b: int, c: int)
    requires Chain(fac, j, i, a, b) && i + 2 <= |gac| == |fac| && gac[..i] == fac[..i]
    requires Radix(b, gac[i]) && gac[i + 1] == c > 1 && gac[i] * c == b
    ensures Chain(gac, j, i + 2, a, c)
    decreases i - j
  {
    if j < i {
      assert gac[..i][j] == gac[j] && gac[..i][j + 1] == gac[j + 1];
      ChainGrow(fac, gac, j + 2, i, fac[j + 1], b, c);
    } else {
      assert Chain(gac, i + 2, i + 2, c, c);
    }
  }

  lemma {:induction false} ChainClose(fac: seq<int>, gac: seq<int>, j: nat, i: nat, a: int, b: int)
    requires Chain(fac, j, i, a, b) && i + 2 <= |gac| == |fac| && gac[..i] == fac[..i]
    requires Radix(b, gac[i]) && gac[i + 1] == 1 && gac[i] == b
    ensures Factored(gac, j, a) && FastRadices(gac, j) && Greedy(gac, j, a)
    decreases i - j
  {
    if j < i {
      assert gac[..i][j] == gac[j] && gac[..i][j + 1] == gac[j + 1];
      ChainClose(fac, gac, j + 2, i, fac[j + 1], b);
    }
  }

  // ----- arithmetic of the search

  function FloorSqrt(n: nat): (s: nat)
    ensures s * s <= n < (s + 1) * (s + 1)
  {
    if n == 0 then 0 else
      var s := FloorSqrt(n - 1);
      if (s + 1) * (s + 1) <= n then s + 1 else s
  }

  lemma {:induction false} Pow2Monotone(j: nat, k: nat)
    requires j <= k
    ensures Pow2(j) <= Pow2(k)
    decreases k - j
  {
    if j < k { Pow2Monotone(j, k - 1); }
  }

  lemma DivisorOfQuotient(n: int, p: int, d: int)
    requires p >= 1 && d >= 1 && n % p == 0 && (n / p) % d == 0
    ensures n % d == 0
  {
    var c := n / p / d;
    assert n == p * (d * c);
    assert n == d * (p * c);
    MultipleMod(p * c, d);
  }

  lemma MultipleMod(c: int, d: int)
    requires d >= 1
    ensures (d * c) % d == 0
  {
    ModUnique(d * c, d, c, 0);
  }

  lemma DivisorOfFactor(n: int, p: int, d: int)
    requires p >= 1 && d >= 1 && n % p == 0 && p % d == 0
    ensures n % d == 0
  {
    var c := p / d;
    assert n == (d * c) * (n / p);
    assert n == d * (c * (n / p));
    MultipleMod(c * (n / p), d);
  }

  // A radix that divides and has nothing smaller dividing is prime.
  lemma RadixPrime(n: int, p: int)
    requires p >= 2 && n % p == 0 && NoDivisorBelow(n, p)
    ensures Prime(p)
  {
    forall d | 2 <= d < p ensures p % d != 0 {
      if p % d == 0 { DivisorOfFactor(n, p, d); }
    }
  }

  lemma QuotientNoDivisor(n: int, p: int)
    requires p >= 1 && n % p == 0 && NoDivisorBelow(n, p)
    ensures NoDivisorBelow(n / p, p)
  {
    forall d | 2 <= d < p ensures (n / p) % d != 0 {
      if (n / p) % d == 0 { DivisorOfQuotient(n, p, d); }
    }
  }

  lemma SmallerSquare(e: int, d: int, b: int)
    requires b >= 1 && d >= b && e >= b
    ensures d * e >= b * b
  {
    assert d * e >= b * e;
    assert b * e >= b * b;
  }

  lemma CoDivisor(n: int, d: int)
    requires 2 <= d < n && n % d == 0
    ensures var e := n / d; 2 <= e < n && d * e == n && n % e == 0
  {
    var e := n / d;
    assert d * e == n;
    MulMono(d, e, 1);
    MulMono(e, 2, d);
    ModUnique(n, e, d, 0);
  }

  // With no divisor up to its square root, n has none at all.
  lemma NoDivisorAtAll(n: int, b: int)
    requires n >= 2 && b >= 1 && n < b * b && NoDivisorBelow(n, b)
    ensures NoDivisorBelow(n, n)
  {
    forall d | 2 <= d < n ensures n % d != 0 {
      if n % d == 0 {
        CoDivisor(n, d);
        var e := n / d;
        assert d >= b && e >= b;
        SmallerSquare(e, d, b);
      }
    }
  }

  lemma NextOdd(n: int, p: int)
    requires p >= 3 && p % 2 == 1 && n % p != 0 && NoDivisorBelow(n, p)
    ensures NoDivisorBelow(n, p + 2)
  {
    if n % (p + 1) == 0 {
      DivisorOfFactor(n, p + 1, 2);
    }
  }

  // ----- the factoriser

  // The radix being tried: 4, or one that nothing smaller divides.
  ghost predicate Trying(n: int, p: int) {
    p == 4 || (n % 4 != 0 && 1 <= p && (p == 2 || p % 2 == 1 || p == n) && NoDivisorBelow(n, p) && (p == 1 ==> n == 1))
  }

  lemma NextRadix(n: int, was: int, p: int)
    requires n >= 1 && was >= 1 && Trying(n, was) && n % was != 0
    requires p == if was == 4 then 2 else if was == 2 then 3 else was + 2
    ensures p >= 2 && NoDivisorBelow(n, p) && (p == 2 || p % 2 == 1) && n % 4 != 0
    ensures was != n && Trying(n, p)
  {
    assert n % n == 0;
    if was != 4 && was != 2 {
      assert n % 1 == 0;
      NextOdd(n, was);
    }
  }

  lemma SquareRootPassed(n: int, n0: int, s: int, p: int)
    requires 1 <= n <= n0 < (s + 1) * (s + 1) && 0 <= s < p && NoDivisorBelow(n, p) && n % 4 != 0
    ensures Trying(n, n) && n != 4
  {
    assert 4 % 2 == 0;
    if n >= 2 {
      SmallerSquare(p, p, s + 1);
      NoDivisorAtAll(n, p);
    }
  }

  lemma RadixFits(n: int, n0: int, s: int, p: int)
    requires 1 <= n <= n0 && (n > 1 || n0 == 1) && s * s <= n0 && 2 <= p <= s
    requires NoDivisorBelow(n, p)
    ensures n > 1 && p <= n
  {
    SmallerSquare(s, s, 2);
    assert n >= 2 && n % n == 0;
  }

  // Every stage at least halves what is left, so MAXFACTORS stages are enough.
  lemma StageRoom(stages: nat, n: int, n0: int)
    requires n >= 1 && Pow2(stages) * n <= n0 < 0x8000_0000
    ensures stages <= 30
  {
    MulMono(Pow2(stages), 1, n);
    assert Pow2(8) == 256;
    assert Pow2(16) == 65536;
    assert Pow2(24) == 0x100_0000;
    assert Pow2(31) == 0x8000_0000;
    if stages >= 31 {
      Pow2Monotone(31, stages);
    }
  }

  lemma Halved(m: int, p: int, n: int, c: int)
    requires p >= 2 && p * n == m && n >= 1 && c >= 1
    ensures n < m && 2 * c * n <= c * m
  {
    MulMono(n, 2, p);
    assert 2 * n <= m;
    MulMono(c, 2 * n, m);
  }

  lemma StageDone(m: int, p: int, n: int, stages: nat)
    requires m >= 1 && p >= 1 && m % p == 0 && n == m / p && Trying(m, p)
    ensures p * n == m && n >= 1 && (m > 1 ==> p >= 2)
    ensures p >= 2 ==> n < m && Pow2(stages + 1) * n <= Pow2(stages) * m && Radix(m, p)
    ensures n > 1 ==> Trying(n, p)
    ensures p != 4 && n > 1 ==> p <= n
  {
    hide Prime;
    assert p * n == m;
    MulMono(p, n, 0);
    if p >= 2 {
      Halved(m, p, n, Pow2(stages));
      if p != 4 {
        RadixPrime(m, p);
        QuotientNoDivisor(m, p);
        if n % 4 == 0 { DivisorOfQuotient(m, p, 4); }
        NoDivisorBound(n, p);
      }
    }
  }

  lemma NoDivisorBound(n: int, p: int)
    requires NoDivisorBelow(n, p)
    ensures n > 1 ==> p <= n
  {
    if n > 1 { assert n % n == 0; }
  }

  lemma Pow2Zero()
    ensures Pow2(0) == 1
  {}

  lemma FourFirst(n: int)
    ensures Trying(n, 4)
  {}

  lemma ChainStart(fac: seq<int>, n: int)
    ensures Chain(fac, 0, 0, n, n)
  {}

  lemma FactoredOne(fac: seq<int>)
    requires |fac| >= 2 && fac[0] == 1 && fac[1] == 1
    ensures Factored(fac, 0, 1)
  {}

  // The inner loop: the next radix that divides n, from p0 on.
  method NextDivisor(n: int, p0: int, floorSqrt: nat, ghost n0: int) returns (p: int)
    requires 1 <= n <= n0 < (floorSqrt + 1) * (floorSqrt + 1) && floorSqrt * floorSqrt <= n0
    requires 1 <= p0 && Trying(n, p0) && (p0 != 4 ==> p0 <= n) && (n == 1 ==> n0 == 1 && p0 == 4)
    ensures 1 <= p && n % p == 0 && Trying(n, p) && (n == 1 ==> p == 1)
  {
    hide Trying, NoDivisorBelow;
    p := p0;
    while n % p != 0
      invariant 1 <= p && Trying(n, p) && (p != 4 ==> p <= n) && (n == 1 ==> p == 4 || p == 1)
      decreases if p == 4 then 1 else 0, n - p
    {
      var was := p;
      match p {
        case 4 => p := 2;
        case 2 => p := 3;
        case _ => p := p + 2;
      }
      NextRadix(n, was, p);
      if p > floorSqrt {
        SquareRootPassed(n, n0, floorSqrt, p);
        p := n;
      } else {
        RadixFits(n, n0, floorSqrt, p);
      }
    }
  }

  // Writes the stage list for length n into facbuf and returns the number of stages.
  method KfFactor(n0: int, facbuf: array<int>) returns (ghost stages: nat)
    requires 1 <= n0 < 0x8000_0000 && facbuf.Length == 2 * MAXFACTORS
    modifies facbuf
    ensures Factored(facbuf[..], 0, n0)
    ensures n0 >= 2 ==> FastRadices(facbuf[..], 0) && Greedy(facbuf[..], 0, n0)
    ensures 1 <= stages <= MAXFACTORS && (n0 >= 2 ==> Pow2(stages) <= n0)
    ensures facbuf[2 * stages - 1] == 1
  {
    hide Chain, Factored, FastRadices, Greedy, Radix, Prime, NoDivisorBelow, Pow2, Trying;
    var n, p, i := n0, 4, 0;
    ChainStart(facbuf[..], n0);
    FourFirst(n0);
    assert Pow2(0) * n0 == n0 by { Pow2Zero(); }
    var floorSqrt := FloorSqrt(n);
    stages := 0;
    while true
      invariant 1 <= n <= n0 && i == 2 * stages && Pow2(stages) * n <= n0
      invariant n > 1 || (n0 == 1 && stages == 0)
      invariant Trying(n, p) && (n == 1 ==> p == 4) && 1 <= p
      invariant p != 4 ==> p <= n
      invariant i <= facbuf.Length
      invariant Chain(facbuf[..], 0, i, n0, n)
      decreases n
    {
      ghost var fac, m := facbuf[..], n;
      p := NextDivisor(n, p, floorSqrt, n0);
      StageRoom(stages, n, n0);
      n := n / p;
      facbuf[i] := p;
      facbuf[i + 1] := n;
      StageDone(m, p, n, stages);
      stages := stages + 1;
      if n > 1 {
        ChainGrow(fac, facbuf[..], 0, i, n0, m, n);
      } else if n0 > 1 {
        ChainClose(fac, facbuf[..], 0, i, n0, m);
      } else {
        FactoredOne(facbuf[..]);
      }
      i := i + 2;
      if n <= 1 { break; }
    }
  }
}
