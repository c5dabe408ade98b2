/** Integer helpers for the page arithmetic of the query engine. */
module Numbers {

  function Min(a: int, b: int): int
  {
    if a <= b then a else b
  }

  function Max(a: int, b: int): int
  {
    if a >= b then a else b
  }

  /** `Math.ceil(a / b)` for a non-negative numerator and a positive denominator: the least
      number of blocks of size `b` that cover `a`. */
  function CeilDiv(a: nat, b: nat): (r: nat)
    requires b >= 1
    ensures r * b >= a
    ensures r == 0 || (r - 1) * b < a
    ensures r == 0 <==> a == 0
  {
    var q := (a + b - 1) / b;
    var m := (a + b - 1) % b;
    assert a + b - 1 == q * b + m;
    assert (q - 1) * b == q * b - b;
    q
  }

  /** The block before block `n` ends `d` elements earlier. */
  lemma MulPred(n: int, d: int)
    ensures (n - 1) * d + d == n * d
  {
    assert (n - 1) * d == n * d - 1 * d;
  }

  /** Multiplying by a non-negative factor keeps the order. */
  lemma MulMonotone(a: int, b: int, c: nat)
    requires a <= b
    ensures a * c <= b * c
  {
    assert b * c - a * c == (b - a) * c;
  }

  /** `Math.floor(n / d) + 1` for a non-negative `n` and a positive `d`: the 1-based number of
      the block of size `d` that holds position `n`. */
  function BlockOf(n: nat, d: nat): (r: nat)
    requires d >= 1
    ensures r >= 1
    ensures (r - 1) * d <= n < r * d
  {
    var q := n / d;
    assert n == q * d + n % d;
    assert (q + 1) * d == q * d + d;
    q + 1
  }

  /** A position lies in block `b` or later exactly when it is at least `(b - 1) * d`. */
  lemma BlockOfAtLeast(n: nat, d: nat, b: nat)
    requires d >= 1 && b >= 1
    ensures BlockOf(n, d) >= b <==> n >= (b - 1) * d
  {
    var r := BlockOf(n, d);
    if r >= b {
      MulMonotone(b - 1, r - 1, d);
    } else {
      MulMonotone(r, b - 1, d);
    }
  }
}
