/** Finite sums of complex terms, reindexing and exchange of summation. */
module Sums {
  import opened Complex

  ghost function Sum(n: nat, g: int -> Cpx): Cpx {
    if n == 0 then ZERO else Add(Sum(n - 1, g), g(n - 1))
  }

  lemma {:induction false} SumEq(n: nat, g: int -> Cpx, h: int -> Cpx)
    requires forall i {:trigger h(i)} :: 0 <= i < n ==> g(i) == h(i)
    ensures Sum(n, g) == Sum(n, h)
  {
    if n > 0 { SumEq(n - 1, g, h); }
  }

  lemma {:induction false} SumOfAdd(n: nat, f: int -> Cpx, g: int -> Cpx, h: int -> Cpx)
    requires forall i {:trigger h(i)} :: 0 <= i < n ==> h(i) == Add(f(i), g(i))
    ensures Sum(n, h) == Add(Sum(n, f), Sum(n, g))
  {
    if n > 0 { SumOfAdd(n - 1, f, g, h); }
  }

  lemma {:induction false} SumOfMul(n: nat, c: Cpx, g: int -> Cpx, h: int -> Cpx)
    requires forall i {:trigger h(i)} :: 0 <= i < n ==> h(i) == Mul(c, g(i))
    ensures Sum(n, h) == Mul(c, Sum(n, g))
  {
    assert Mul(c, ZERO) == ZERO;
    hide Mul;
    if n > 0 {
      SumOfMul(n - 1, c, g, h);
      MulAdd(c, Sum(n - 1, g), g(n - 1));
    }
  }

  lemma {:induction false} SumOfConj(n: nat, g: int -> Cpx, h: int -> Cpx)
    requires forall i {:trigger h(i)} :: 0 <= i < n ==> h(i) == Conj(g(i))
    ensures Sum(n, h) == Conj(Sum(n, g))
  {
    if n > 0 { SumOfConj(n - 1, g, h); }
  }

  lemma {:induction false} SumOfZero(n: nat, g: int -> Cpx)
    requires forall i :: 0 <= i < n ==> g(i) == ZERO
    ensures Sum(n, g) == ZERO
  {
    if n > 0 { SumOfZero(n - 1, g); }
  }

  lemma {:induction false} SumOfOnes(n: nat, g: int -> Cpx)
    requires forall i :: 0 <= i < n ==> g(i) == ONE
    ensures Sum(n, g) == Cpx(n as real, 0.0)
  {
    if n > 0 { SumOfOnes(n - 1, g); }
  }

  lemma {:induction false} SumSplit(a: nat, b: nat, g: int -> Cpx, h: int -> Cpx)
    requires forall i {:trigger h(i)} :: 0 <= i < b ==> h(i) == g(a + i)
    ensures Sum(a + b, g) == Add(Sum(a, g), Sum(b, h))
  {
    if b > 0 { SumSplit(a, b - 1, g, h); }
  }

  // All terms but the one at index s vanish.
  lemma {:induction false} SumSingle(n: nat, s: nat, g: int -> Cpx)
    requires s < n
    requires forall i :: 0 <= i < n && i != s ==> g(i) == ZERO
    ensures Sum(n, g) == g(s)
  {
    if s == n - 1 {
      SumOfZero(n - 1, g);
    } else {
      SumSingle(n - 1, s, g);
    }
  }

  // The terms of g at indices congruent to q modulo p, in order.
  ghost function Decimate(g: int -> Cpx, p: int, q: int): int -> Cpx {
    i => g(i * p + q)
  }

  ghost function ResidueSums(g: int -> Cpx, p: int, m: nat): int -> Cpx {
    q => Sum(m, Decimate(g, p, q))
  }

  ghost function Times(m: nat, p: nat): nat { m * p }

  lemma TimesStep(m: nat, p: nat)
    requires m > 0
    ensures Times(m, p) == Times(m - 1, p) + p
  {}

  lemma TimesZero(p: nat)
    ensures Times(0, p) == 0
  {}

  lemma ResidueSumsStep(g: int -> Cpx, p: nat, m: nat, q: int)
    requires m > 0
    ensures ResidueSums(g, p, m)(q) == Add(ResidueSums(g, p, m - 1)(q), g(Times(m - 1, p) + q))
  {}

  lemma ResidueSumsZero(g: int -> Cpx, p: nat, q: int)
    ensures ResidueSums(g, p, 0)(q) == ZERO
  {}

  // A sum over 0..m*p, taken by residue class modulo p.
  lemma {:induction false} SumByResidue(p: nat, m: nat, g: int -> Cpx)
    ensures Sum(Times(m, p), g) == Sum(p, ResidueSums(g, p, m))
  {
    hide ResidueSums, Add, Times;
    if m == 0 {
      TimesZero(p);
      forall q | 0 <= q < p ensures ResidueSums(g, p, m)(q) == ZERO {
        ResidueSumsZero(g, p, q);
      }
      SumOfZero(p, ResidueSums(g, p, m));
    } else {
      TimesStep(m, p);
      var a := Times(m - 1, p);
      SumByResidue(p, m - 1, g);
      var last := (q: int) => g(a + q);
      forall q | 0 <= q < p
        ensures ResidueSums(g, p, m)(q) == Add(ResidueSums(g, p, m - 1)(q), last(q))
      {
        ResidueSumsStep(g, p, m, q);
      }
      SumOfAdd(p, ResidueSums(g, p, m - 1), last, ResidueSums(g, p, m));
      SumSplit(a, p, g, last);
    }
  }

  lemma {:induction false} SumSwap(n: nat, m: nat, g: (int, int) -> Cpx)
    ensures Sum(n, a => Sum(m, b => g(a, b))) == Sum(m, b => Sum(n, a => g(a, b)))
  {
    var columns := (b: int) => Sum(n, a => g(a, b));
    if n == 0 {
      SumOfZero(m, columns);
    } else {
      SumSwap(n - 1, m, g);
      var shorter := (b: int) => Sum(n - 1, a => g(a, b));
      var last := (b: int) => g(n - 1, b);
      SumOfAdd(m, shorter, last, columns);
      SumEq(m, last, b => g(n - 1, b));
    }
  }
}
