/** Facts about quotients and remainders by a divisor that is not a constant. */
module Arithmetic {

  lemma LargerProduct(a: nat, b: nat)
    requires 1 <= a
    ensures a * b >= b
  {
    assert a * b == (a - 1) * b + b;
  }

  /** Division with remainder has one result. */
  lemma DivisionIsUnique(x: nat, d: nat, q: nat, r: nat)
    requires 1 <= d && r < d && x == q * d + r
    ensures x / d == q && x % d == r
  {
    var p := x / d;
    assert p * d <= x < p * d + d;
    if p >= q + 1 {
      LargerProduct(p - q, d);
    }
    if q >= p + 1 {
      LargerProduct(q - p, d);
    }
  }

  lemma MultipleBelow(x: nat, d: nat, k: nat)
    requires 1 <= d && k <= x / d
    ensures k * d <= x
  {
    assert x / d * d <= x;
    assert x / d * d == k * d + (x / d - k) * d;
  }

  lemma QuotientAbove(x: nat, d: nat, k: nat)
    requires 1 <= d && k * d <= x
    ensures k <= x / d
  {
    assert x < x / d * d + d;
    if x / d < k {
      assert k * d == x / d * d + (k - x / d) * d;
      LargerProduct(k - x / d, d);
    }
  }

  lemma DivisionOfSuccessor(x: nat, d: nat)
    requires 1 <= d
    ensures x % d + 1 < d ==> (x + 1) / d == x / d && (x + 1) % d == x % d + 1
    ensures x % d + 1 == d ==> (x + 1) / d == x / d + 1 && (x + 1) % d == 0
  {
    assert x == x / d * d + x % d;
    if x % d + 1 < d {
      DivisionIsUnique(x + 1, d, x / d, x % d + 1);
    } else {
      assert (x / d + 1) * d == x / d * d + d;
      DivisionIsUnique(x + 1, d, x / d + 1, 0);
    }
  }
}
