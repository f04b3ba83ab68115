/** Division with remainder, for the lemmas that reason about it. */
module Arithmetic {
  lemma MulAtLeast(d: int, n: nat)
    requires d >= 1
    ensures d * n >= n
  {
    assert (d - 1) * n >= 0;
  }

  lemma DivMod(q: int, r: nat, n: nat)
    requires r < n
    ensures (q * n + r) / n == q && (q * n + r) % n == r
  {
    var x := q * n + r;
    var d := x / n - q;
    assert x == (x / n) * n + x % n;
    assert d * n == r - x % n;
    assert (-d) * n == -(d * n);
    if d >= 1 {
      MulAtLeast(d, n);
    } else if d <= -1 {
      MulAtLeast(-d, n);
    }
  }

  /** Dividing in two steps. */
  lemma DivTwice(v: nat, p: nat)
    requires p > 0
    ensures v / (2 * p) == v / 2 / p
  {
    var d := 2 * p;
    var q, r := v / d, v % d;
    assert v == q * d + r;
    assert q * d == 2 * (q * p);
    assert v / 2 == q * p + r / 2;
    DivMod(q, r / 2, p);
  }
}
