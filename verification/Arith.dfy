/** Facts about multiplication and division that the solver does not find alone. */
module Arith {

  lemma MulNonNegative(a: nat, b: nat)
    ensures 0 <= a * b
  {
  }

  lemma MulGap(a: nat, b: nat, c: nat)
    ensures a <= b ==> a * c <= b * c
    ensures a < b ==> a * c + c <= b * c
  {
    assert b * c == a * c + (b - a) * c;
    if a < b {
      assert (b - a) * c == c + (b - a - 1) * c;
      MulNonNegative(b - a - 1, c);
    }
  }

  /** The quotient is the one number with q * c <= a < q * c + c. */
  lemma DivIs(a: nat, c: nat, q: nat)
    requires c > 0
    requires q * c <= a < q * c + c
    ensures a / c == q
  {
    var d := a / c;
    assert a == d * c + a % c;
    MulGap(d, q, c);
    MulGap(q, d, c);
  }

  lemma DivBounds(a: nat, c: nat)
    requires c > 0
    ensures (a / c) * c <= a < (a / c) * c + c
  {
    assert a == (a / c) * c + a % c;
  }

  lemma DivBelow(a: nat, b: nat, c: nat)
    requires c > 0
    requires a < b * c
    ensures a / c < b
  {
    DivBounds(a, c);
    MulGap(b, a / c, c);
  }

  lemma MulAssoc(t: nat, b: nat, a: nat)
    ensures t * b * a == t * (a * b)
  {
  }

  lemma MulTwice(n: nat, a: nat, b: nat, q: nat, t: nat)
    requires q * a <= n < q * a + a && t * b <= q < t * b + b
    ensures t * (a * b) <= n < t * (a * b) + a * b
  {
    var m := t * b;
    MulGap(m, q, a);
    MulGap(q + 1, m + b, a);
    assert (q + 1) * a == q * a + a && (m + b) * a == m * a + b * a;
    MulAssoc(t, b, a);
  }

  /** Dividing twice is dividing by the product. */
  lemma DivDiv(n: nat, a: nat, b: nat)
    requires a > 0 && b > 0
    ensures a * b > 0 && n / (a * b) == n / a / b
  {
    DivBounds(n, a);
    DivBounds(n / a, b);
    MulTwice(n, a, b, n / a, n / a / b);
    MulGap(1, b, a);
    DivIs(n, a * b, n / a / b);
  }

  function Quotient(a: nat, b: nat): (r: nat)
    requires b > 0
  {
    a / b
  }
}
