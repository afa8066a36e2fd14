/** Small facts about integer division used by the sampling proofs. Dafny's
    `/` and `%` are Euclidean; for the positive divisors used here they agree
    with Python's floor division. */
module Arith {

  lemma MulMono(x: int, y: int, d: int)
    requires x <= y && d > 0
    ensures x * d <= y * d
  {
    assert y * d - x * d == (y - x) * d;
  }

  /** Quotient and remainder are determined by the division equation. */
  lemma DivModUnique(a: int, d: int, q: int, r: int)
    requires d > 0
    requires a == q * d + r
    requires 0 <= r < d
    ensures a % d == r && a / d == q
  {
    var q', r' := a / d, a % d;
    assert a == q' * d + r';
    assert (q - q') * d == r' - r by {
      assert (q - q') * d == q * d - q' * d;
    }
    if q > q' {
      MulMono(1, q - q', d);
    } else if q < q' {
      MulMono(1, q' - q, d);
    }
  }

  /** ceil(n / d) for a positive divisor. */
  function CeilDiv(n: nat, d: int): nat
    requires d > 0
  {
    (n + d - 1) / d
  }

  /** `CeilDiv(n, d)` is the least `j` with `j * d >= n`. */
  lemma CeilDivLeast(n: nat, d: int, j: int)
    requires d > 0
    ensures j * d >= n <==> CeilDiv(n, d) <= j
  {
    var c := CeilDiv(n, d);
    var rr := (n + d - 1) % d;
    assert n + d - 1 == c * d + rr;
    if j >= c {
      MulMono(c, j, d);
    } else {
      MulMono(j, c - 1, d);
      assert (c - 1) * d == c * d - d;
    }
  }

  /** A multiple `j * d` with `j` below ceil(n / d) is below `n`. */
  lemma MultipleBelowCeil(n: nat, d: int, j: nat)
    requires d > 0 && j < CeilDiv(n, d)
    ensures j * d < n && (j * d) % d == 0
  {
    CeilDivLeast(n, d, j);
    DivModUnique(j * d, d, j, 0);
  }

  lemma MulStrict(a: int, b: int, d: int)
    requires a < b && d > 0
    ensures a * d < b * d
  {
    MulMono(a + 1, b, d);
  }
}
