/** Facts about Euclidean division that the word-level proofs share. */
module Arithmetic {

  lemma SmallMultiple(d: int, k: int)
    requires d > 0 && -d < d * k < d
    ensures k == 0
  {}

  lemma MultipleAbove(d: int, k: int)
    requires d > 0 && d * k > -d
    ensures k >= 0
  {}

  lemma MulStep(a: int, b: int, d: int)
    requires a < b && d >= 0
    ensures a * d + d <= b * d
  {
    var k := b - a - 1;
    Product(k, d);
    assert b * d == (a + 1 + k) * d == a * d + d + k * d;
  }

  lemma Product(k: int, d: int)
    requires k >= 0 && d >= 0
    ensures k * d >= 0
  {}

  lemma Quotient(x: int, d: int, q: int, r: int)
    requires d > 0 && x == d * q + r && 0 <= r < d
    ensures x / d == q && x % d == r
  {
    assert d * (x / d - q) == r - x % d;
    SmallMultiple(d, x / d - q);
  }

  lemma Regroup(x: int, a: int, b: int)
    requires a > 0 && b > 0
    ensures a * b > 0
    ensures x == a * b * (x / a / b) + (a * (x / a % b) + x % a)
    ensures 0 <= a * (x / a % b) + x % a < a * b
  {
    var q := x / a;
    assert a * (b * (q / b) + q % b) == a * b * (q / b) + a * (q % b);
    assert a * (q % b) <= a * (b - 1);
  }

  lemma DivDiv(x: int, a: int, b: int)
    requires a > 0 && b > 0
    ensures a * b > 0 && x / (a * b) == x / a / b
  {
    Regroup(x, a, b);
    Quotient(x, a * b, x / a / b, a * (x / a % b) + x % a);
  }

  lemma ModSplit(x: int, a: int, b: int)
    requires a > 0 && b > 0
    ensures a * b > 0 && x % (a * b) == a * (x / a % b) + x % a
  {
    Regroup(x, a, b);
    Quotient(x, a * b, x / a / b, a * (x / a % b) + x % a);
  }
}
