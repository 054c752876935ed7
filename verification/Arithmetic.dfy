/** The few facts of nonlinear arithmetic that pixel addresses and row strides need. */
module Arithmetic {

  lemma {:induction false} MulMono(a: int, b: int, n: nat)
    requires a <= b
    ensures a * n <= b * n
  {
    assert (b - a) * n >= 0;
  }

  lemma {:induction false} DivMod(k: int, n: int, q: int, r: int)
    requires 0 < n && 0 <= r < n && k == q * n + r
    ensures k / n == q && k % n == r
  {
    var d := k / n - q;
    assert d * n == r - k % n;
    if d >= 1 {
      MulMono(1, d, n);
    } else if d <= -1 {
      MulMono(d, -1, n);
    }
  }

  lemma {:induction false} DivBelow(k: nat, n: nat, q: nat)
    requires n > 0 && k < q * n
    ensures k / n < q
  {
    if k / n >= q {
      MulMono(q, k / n, n);
    }
  }
}
