/** Integer products, quotients and remainders, one small fact at a time. */
module Arith {

  function Pow2(k: nat): (r: nat)
    ensures r >= 1
  {
    if k == 0 then 1 else 2 * Pow2(k - 1)
  }

  lemma MulBounds(n: int, d: int)
    requires n >= 1
    ensures d >= 1 ==> n * d >= n
    ensures d <= -1 ==> n * d <= -n
  {}

  lemma ModUnique(a: int, n: int, q: int, r: int)
    requires n >= 1 && a == n * q + r && 0 <= r < n
    ensures a % n == r && a / n == q
  {
    var d := a / n - q;
    assert n * d == r - a % n by {
      assert a == n * (a / n) + a % n;
      assert n * d == n * (a / n) - n * q;
    }
    MulBounds(n, d);
  }

  lemma MulMono(m: int, a: int, b: int)
    requires m >= 0
    ensures a <= b ==> a * m <= b * m
  {}

  lemma AddMod(a: int, c: int, n: int)
    requires n >= 1 && 0 <= c < n
    ensures (a + c) % n == if a % n + c >= n then a % n + c - n else a % n + c
  {
    var q, r := a / n, a % n;
    if r + c >= n {
      ModUnique(a + c, n, q + 1, r + c - n);
    } else {
      ModUnique(a + c, n, q, r + c);
    }
  }

  lemma MulLess(c: int, a: int, b: int)
    requires c >= 1 && a < b
    ensures c * a < c * b
  {}

  lemma MulDistributes(c: int, a: int, b: int)
    ensures c * a - c * b == c * (a - b)
  {}

  lemma ProductAssoc(a: int, b: int, c: int)
    ensures a * b * c == a * (b * c)
  {}

  lemma ModOfMod(i: nat, n: nat, m: nat)
    requires m >= 1 && n >= 1 && n % m == 0
    ensures (i % n) % m == i % m
  {
    var q, k, r := i / n, n / m, i % n;
    assert i == m * (k * q) + r by {
      assert n == m * k;
      assert i == n * q + r;
      ProductAssoc(m, k, q);
    }
    MulDistributes(m, k * q + r / m, r / m);
    ModUnique(i, m, k * q + r / m, r % m);
  }

  lemma DivDiv(n: nat, a: nat, b: nat)
    requires a >= 1 && b >= 1
    ensures a * b >= 1 && n / a / b == n / (a * b)
  {
    var q, r := n / a, n % a;
    var s, t := q / b, q % b;
    assert n == a * q + r && q == b * s + t;
    ProductAssoc(a, b, s);
    Distribute(a, b * s, t);
    MulMono(a, t, b - 1);
    MulDistributes(a, b, 1);
    MulBounds(a, b);
    ModUnique(n, a * b, s, a * t + r);
  }

  lemma Distribute(a: int, b: int, c: int)
    ensures a * (b + c) == a * b + a * c
  {}
}
