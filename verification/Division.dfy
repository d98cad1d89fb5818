/** Facts about division by a variable. */
module Division {
  lemma {:induction false} MulLess(d: nat, a: nat, b: nat)
    requires a < b
    ensures d * a + d <= d * b
  {
    if a + 1 < b { MulLess(d, a, b - 1); }
  }

  lemma {:induction false} DivIs(n: nat, d: nat, q: nat)
    requires d > 0 && d * q <= n < d * q + d
    ensures n / d == q
  {
    var k := n / d;
    assert d * k <= n < d * k + d;
    if k < q { MulLess(d, k, q); }
    if q < k { MulLess(d, q, k); }
  }

  lemma {:induction false} DivGrows(a: nat, b: nat, d: nat)
    requires a <= b && d > 0
    ensures a / d <= b / d
  {
    var qa, qb := a / d, b / d;
    assert d * qa <= a && b < d * qb + d;
    if qb < qa { MulLess(d, qb, qa); }
  }

  lemma {:induction false} DivExact(d: nat, k: nat)
    requires d > 0
    ensures d * k / d == k
  {
    DivIs(d * k, d, k);
  }

  function Quotient(n: nat, d: nat): nat
    requires d > 0
  {
    n / d
  }

  function Remainder(n: int, d: nat): (m: nat)
    requires d > 0
    ensures m < d
  {
    n % d
  }
}
