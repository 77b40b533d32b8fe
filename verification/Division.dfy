/** Facts about integer division by a variable, kept apart from the proofs that need them. */
module Division {
  lemma MulMono(a: int, b: int, d: nat)
    ensures a >= b ==> a * d >= b * d
  {
  }

  lemma LessMul(a: int, b: int, d: nat)
    requires a * d < b * d
    ensures a < b
  {
    MulMono(a, b, d);
  }

  lemma DivBounds(x: nat, d: nat)
    requires d > 0
    ensures x / d * d <= x < (x / d + 1) * d
  {
  }

  lemma DivUnique(x: nat, d: nat, q: nat)
    requires d > 0 && q * d <= x < (q + 1) * d
    ensures x / d == q
  {
    var e := x / d;
    DivBounds(x, d);
    LessMul(e, q + 1, d);
    LessMul(q, e + 1, d);
  }

  lemma MulBound(a: nat, a': nat, b: nat, b': nat)
    requires a <= a' && b <= b'
    ensures a * b <= a' * b'
  {
    MulMono(a', a, b);
    assert a' * b == b * a' && a' * b' == b' * a';
    MulMono(b', b, a');
  }

  lemma HalvedQuotient(x: nat, r: nat)
    requires r > 0
    ensures 2 * x / (2 * r) == x / r
  {
    var q := x / r;
    DivBounds(x, r);
    assert q * (2 * r) == 2 * (q * r) && (q + 1) * (2 * r) == 2 * ((q + 1) * r);
    DivUnique(2 * x, 2 * r, q);
  }

  lemma Assoc(q: int, a: int, b: int)
    ensures q * b * a == q * (a * b)
  {
  }

  lemma Nest(x: nat, a: nat, b: nat, y: nat, q: nat)
    requires y * a <= x < (y + 1) * a && q * b <= y < (q + 1) * b
    ensures q * (a * b) <= x < (q + 1) * (a * b)
  {
    MulMono(y, q * b, a);
    MulMono((q + 1) * b, y + 1, a);
    Assoc(q, a, b);
    Assoc(q + 1, a, b);
  }

  lemma DivDiv(x: nat, a: nat, b: nat)
    requires a > 0 && b > 0
    ensures a * b > 0 && x / a / b == x / (a * b)
  {
    var y := x / a;
    var q := y / b;
    DivBounds(x, a);
    DivBounds(y, b);
    Nest(x, a, b, y, q);
    MulMono(a, 1, b);
    DivUnique(x, a * b, q);
  }

  lemma DivMono(x: nat, y: nat, d: nat)
    requires d > 0 && x <= y
    ensures x / d <= y / d
  {
    DivBounds(x, d);
    DivBounds(y, d);
    LessMul(x / d, y / d + 1, d);
  }

  lemma QuotientAtLeast(x: nat, n: nat, y: nat)
    requires n > 0 && y * n <= x
    ensures y <= x / n
  {
    var q := x / n;
    DivBounds(x, n);
    LessMul(y, q + 1, n);
  }

  lemma QuotientAtMost(x: nat, n: nat, y: nat)
    requires n > 0 && x <= y * n
    ensures x / n <= y
  {
    var q := x / n;
    DivBounds(x, n);
    MulMono(q, y + 1, n);
    assert (y + 1) * n == y * n + n;
  }

  lemma QuotientBelow(x: nat, n: nat, y: nat)
    requires n > 0 && x < y * n
    ensures x / n < y
  {
    var q := x / n;
    DivBounds(x, n);
    LessMul(q, y, n);
  }

  lemma SmallerFactor(u: nat, d: nat, e: nat)
    requires d <= e
    ensures u * d <= u * e
  {
    MulMono(e, d, u);
    assert u * e == e * u && u * d == d * u;
  }

  /** Dividing by less gives no less. */
  lemma DivAnti(x: nat, d: nat, e: nat)
    requires 0 < d <= e
    ensures x / e <= x / d
  {
    var u := x / e;
    DivBounds(x, e);
    SmallerFactor(u, d, e);
    QuotientAtLeast(x, d, u);
  }

  /** Rounded-up quotient, in the form the clock code computes it: quotient - 1 + (remainder ? 1 : 0). */
  function CeilMinus1(x: nat, y: nat): int
    requires y > 0
  {
    x / y - 1 + if x % y != 0 then 1 else 0
  }

  lemma DivMod(x: nat, y: nat)
    requires y > 0
    ensures x == x / y * y + x % y && 0 <= x % y < y
  {
  }

  /** It is the least c such that (c + 1) * y reaches x. */
  lemma CeilBounds(x: nat, y: nat)
    requires x > 0 && y > 0
    ensures 0 <= CeilMinus1(x, y) && CeilMinus1(x, y) * y < x <= (CeilMinus1(x, y) + 1) * y
  {
    var q := x / y;
    DivMod(x, y);
    assert (q + 1) * y == q * y + y && (q - 1) * y == q * y - y;
    if q == 0 { assert q * y == 0; }
  }

  lemma CeilUnique(x: nat, y: nat, c: int)
    requires x > 0 && y > 0 && c * y < x <= (c + 1) * y
    ensures CeilMinus1(x, y) == c
  {
    CeilBounds(x, y);
    var e := CeilMinus1(x, y);
    LessMul(c, e + 1, y);
    LessMul(e, c + 1, y);
  }

  /** Quotient and remainder of a number given in the form q * d + r. */
  lemma QuotRem(x: int, d: nat, q: int, r: nat)
    requires d > 0 && r < d && x == q * d + r
    ensures x / d == q && x % d == r
  {
    var e, s := x / d, x % d;
    assert x == e * d + s && 0 <= s < d;
    assert (q + 1) * d == q * d + d && (e + 1) * d == e * d + d;
    LessMul(q, e + 1, d);
    LessMul(e, q + 1, d);
  }
}
