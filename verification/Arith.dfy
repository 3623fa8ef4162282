/** Facts about multiplication and division of integers that the solver needs spelled out. */
module Arith {
  lemma MulLe(a: int, b: int, p: int)
    requires a <= b && p >= 0
    ensures p * a <= p * b
  {
  }

  lemma MulLt(a: int, b: int, p: int)
    requires a < b && p > 0
    ensures p * a < p * b
  {
  }

  lemma MulMono(a: nat, a': nat, b: nat, b': nat)
    requires a <= a' && b <= b'
    ensures a * b <= a' * b'
  {
    MulLe(b, b', a);
    MulLe(a, a', b');
  }

  lemma DivBounds(n: int, d: int)
    requires d > 0
    ensures d * (n / d) <= n < d * (n / d) + d
  {
  }

  lemma DivMod(n: int, d: int)
    requires d > 0
    ensures n == (n / d) * d + n % d && 0 <= n % d < d
  {
  }

  lemma DivUnique(n: int, d: int, q: int)
    requires d > 0 && d * q <= n < d * q + d
    ensures n / d == q
  {
    var e := n / d;
    DivBounds(n, d);
    if e < q { MulLe(e + 1, q, d); }
    if q < e { MulLe(q + 1, e, d); }
  }

  lemma QuotientIff(n: int, d: int, q: int)
    requires d > 0
    ensures q == n / d <==> d * q <= n < d * q + d
  {
    DivBounds(n, d);
    if d * q <= n < d * q + d { DivUnique(n, d, q); }
  }

  lemma DivMono(a: int, b: int, d: int)
    requires a <= b && d > 0
    ensures a / d <= b / d
  {
    DivBounds(a, d);
    DivBounds(b, d);
    if b / d < a / d { MulLe(b / d + 1, a / d, d); }
  }

  /** Two successive floor divisions are one by the product. */
  lemma NestedDiv(n: nat, a: nat, b: nat)
    requires a > 0 && b > 0
    ensures a * b > 0 && n / a / b == n / (a * b)
  {
    var h := n / a;
    var q := h / b;
    DivBounds(n, a);
    DivBounds(h, b);
    MulLt(0, b, a);
    MulLe(b * q, h, a);
    MulLe(h + 1, b * q + b, a);
    assert a * (b * q) == (a * b) * q;
    assert a * (b * q + b) == (a * b) * q + a * b;
    DivUnique(n, a * b, q);
  }
}
