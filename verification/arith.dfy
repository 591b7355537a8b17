/** Facts about integer multiplication and division that the solver does not
    find by itself. */
module Arith {

  lemma MulGrows(d: int, n: int)
    requires d >= 1 && n > 0
    ensures d * n >= n
  {
    assert d * n == (d - 1) * n + n;
  }

  lemma MulSub(x: int, y: int, n: int)
    ensures (x - y) * n == x * n - y * n
  {
  }

  /** Quotient and remainder are unique. */
  lemma DivUnique(a: int, n: int, q: int, r: int)
    requires n > 0 && 0 <= r < n && a == q * n + r
    ensures a / n == q && a % n == r
  {
    var q', r' := a / n, a % n;
    assert a == q' * n + r';
    if q > q' {
      MulGrows(q - q', n);
      MulSub(q, q', n);
    } else if q < q' {
      MulGrows(q' - q, n);
      MulSub(q', q, n);
    }
  }
}
