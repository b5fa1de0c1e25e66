/** Division facts the models share, kept apart from the proofs that use them. */
module Arith {

  function Min(a: int, b: int): int {
    if a < b then a else b
  }

  function Max(a: int, b: int): int {
    if a < b then b else a
  }

  lemma Monotone(a: int, b: int, c: nat)
    requires a <= b
    ensures a * c <= b * c
  {
  }

  lemma QuotientIs(x: int, n: nat, q: int, r: nat)
    requires n > 0 && x == q * n + r && r < n
    ensures x / n == q && x % n == r
  {
    var d := x / n - q;
    assert d * n == r - x % n;
    if d >= 1 {
      Monotone(1, d, n);
    } else if d <= -1 {
      Monotone(d, -1, n);
    }
  }

  lemma DivisionStep(i: nat, n: nat)
    requires n > 0
    ensures i % n + 1 == n ==> (i + 1) / n == i / n + 1 && (i + 1) % n == 0
    ensures i % n + 1 != n ==> (i + 1) / n == i / n && (i + 1) % n == i % n + 1
  {
    var q, r := i / n, i % n;
    if r + 1 == n {
      assert i + 1 == (q + 1) * n + 0;
      QuotientIs(i + 1, n, q + 1, 0);
    } else {
      assert i + 1 == q * n + (r + 1);
      QuotientIs(i + 1, n, q, r + 1);
    }
  }

  lemma DivideAdd(i: nat, m: nat, n: nat)
    requires n > 0
    ensures (i + m * n) / n == i / n + m && (i + m * n) % n == i % n
  {
    assert i + m * n == (i / n + m) * n + i % n;
    QuotientIs(i + m * n, n, i / n + m, i % n);
  }

  lemma DivideMonotone(i: nat, j: nat, n: nat)
    requires n > 0 && i <= j
    ensures i / n <= j / n
  {
    if i / n >= j / n + 1 {
      Monotone(j / n + 1, i / n, n);
    }
  }
}
