/** Quotients and remainders by a variable divisor. */
module Arithmetic {

  lemma MultipleGap(d: nat, a: int, b: int)
    requires a < b
    ensures d * b >= d * a + d
  {
    assert d * b == d * (a + 1) + d * (b - a - 1);
  }

  /** A decomposition v = d*q + r with r below d is the division with remainder. */
  lemma QuotientIs(v: int, d: nat, q: int, r: nat)
    requires v == d * q + r && r < d
    ensures v / d == q && v % d == r
  {
    var x, y := v / d, v % d;
    assert v == d * x + y && 0 <= y < d;
    if x < q {
      MultipleGap(d, x, q);
    } else if q < x {
      MultipleGap(d, q, x);
    }
  }

  lemma MultipleHasNoRemainder(x: int, a: nat)
    requires a > 0
    ensures (x * a) % a == 0 && (x * a) / a == x
  {
    QuotientIs(x * a, a, x, 0);
  }

  lemma Regroup(a: nat, p: nat, q: nat, b: nat)
    ensures a * (p * q + b) == (a * p) * q + a * b
  {
    assert a * (p * q) == (a * p) * q;
  }

  /** Dividing by `a` and then by `p` is dividing by their product. */
  lemma DivTwice(v: nat, a: nat, p: nat)
    requires a > 0 && p > 0
    ensures a * p > 0 && v / (a * p) == v / a / p
  {
    var half := v / a;
    NestedQuotient(v, a, p, half, v % a, half / p, half % p);
  }

  lemma NestedQuotient(v: nat, a: nat, p: nat, half: nat, r: nat, q: nat, b: nat)
    requires v == a * half + r && half == p * q + b && r < a && b < p
    ensures a * p > 0 && v / (a * p) == q
  {
    Regroup(a, p, q, b);
    MultipleGap(a, 0, p);
    MultipleGap(a, b, p);
    QuotientIs(v, a * p, q, a * b + r);
  }

  /** Remainders of multiples of `a` by multiples of `a` are multiples of `a`. */
  lemma RemainderOfMultiple(a: nat, m: nat, l: nat)
    requires a > 0 && l > 0 && m % a == 0 && l % a == 0
    ensures (m % l) % a == 0
  {
    var q, x, y := m / l, m / a, l / a;
    assert m == a * x && l == a * y && m == l * q + m % l;
    assert (a * y) * q == a * (y * q);
    assert m % l == (x - y * q) * a;
    MultipleHasNoRemainder(x - y * q, a);
  }

  lemma DividesThrough(a: nat, l: nat, m: nat)
    requires a > 0 && l > 0 && l % a == 0 && m % l == 0
    ensures m % a == 0
  {
    var x, y := m / l, l / a;
    assert m == l * x && l == a * y;
    assert (a * y) * x == (x * y) * a;
    MultipleHasNoRemainder(x * y, a);
  }
}
