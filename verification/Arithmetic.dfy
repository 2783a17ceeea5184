/** Division by a variable divisor, and multiples of a variable step. */
module Arithmetic {
  lemma MulMonotone(i: int, a: int, b: int)
    requires i >= 0 && a <= b
    ensures i * a <= i * b
  {
    assert i * (b - a) >= 0;
  }

  lemma DivModParts(x: int, i: int)
    requires i > 0
    ensures x == i * (x / i) + x % i && 0 <= x % i < i
  {
  }

  lemma MultipleOrder(i: int, a: int, b: int)
    requires i > 0
    ensures a < b <==> i * a < i * b
    ensures b < a ==> i * b + i <= i * a
    ensures a < b ==> i * a + i <= i * b
    ensures i * b == b * i
  {
    if a < b {
      MulMonotone(i, a + 1, b);
    } else {
      MulMonotone(i, b, a);
      if b < a {
        MulMonotone(i, b + 1, a);
      }
    }
  }

  lemma DivModUnique(x: int, i: int, q: int, r: int)
    requires i > 0 && x == i * q + r && 0 <= r < i
    ensures x / i == q && x % i == r
  {
    DivModParts(x, i);
    MultipleOrder(i, x / i, q);
  }
}
