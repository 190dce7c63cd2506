/** Powers of two and facts about division that the other modules share. */
module Arith {

  function Pow2(n: nat): (p: nat)
    ensures p > 0
  {
    if n == 0 then 1 else 2 * Pow2(n - 1)
  }

  lemma MulAtLeast(n: nat, a: int, b: int)
    requires a <= b
    ensures n * a <= n * b
  {
  }

  lemma Distribute(n: nat, a: int, b: int)
    ensures n * (a + b) == n * a + n * b
  {
  }

  lemma DivMod(x: nat, n: nat)
    requires n > 0
    ensures x == n * (x / n) + x % n
  {
  }

  /** Quotient and remainder are unique. */
  lemma QuotientUnique(n: nat, q: int, r: nat, q': int, r': nat)
    requires r < n && r' < n && n * q + r == n * q' + r'
    ensures q == q' && r == r'
  {
    Distribute(n, q, 1);
    Distribute(n, q', 1);
    if q < q' {
      MulAtLeast(n, q + 1, q');
    } else if q > q' {
      MulAtLeast(n, q' + 1, q);
    }
  }

  lemma DivUnique(x: nat, n: nat, q: nat, r: nat)
    requires r < n && x == n * q + r
    ensures x / n == q && x % n == r
  {
    DivMod(x, n);
    QuotientUnique(n, x / n, x % n, q, r);
  }

  lemma DivSum(x: nat, y: nat, n: nat, q: nat, r: nat, p: nat, t: nat)
    requires t < n && x == n * q + r && r + y == n * p + t
    ensures (x + y) / n == q + p && (x + y) % n == t
  {
    Distribute(n, q, p);
    DivUnique(x + y, n, q + p, t);
  }

  /** Dividing in two instalments, the second on top of the first remainder. */
  lemma DivSplit(x: nat, y: nat, n: nat)
    requires n > 0
    ensures (x + y) / n == x / n + (x % n + y) / n
    ensures (x + y) % n == (x % n + y) % n
  {
    DivMod(x, n);
    DivMod(x % n + y, n);
    DivSum(x, y, n, x / n, x % n, (x % n + y) / n, (x % n + y) % n);
  }

  lemma DivAtLeastOne(x: nat, n: nat)
    requires n > 0
    ensures x / n >= 1 <==> x >= n
  {
    DivMod(x, n);
    if x >= n && x / n <= 0 {
      MulAtLeast(n, x / n, 0);
    } else if x < n {
      DivUnique(x, n, 0, x);
    }
  }
}
