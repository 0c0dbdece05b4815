/** Small facts about Euclidean division that the time arithmetic relies on. */
module Arith {

  /** Quotient and remainder are determined by the division equation. */
  lemma DivModUnique(x: int, d: int, q: int, r: int)
    requires d > 0 && 0 <= r < d && x == q * d + r
    ensures x / d == q && x % d == r
  {
    var k := x / d - q;
    assert k * d == r - x % d;
    MultipleInOpenInterval(k, d);
  }

  /** The only multiple of `d` strictly between `-d` and `d` is zero. */
  lemma MultipleInOpenInterval(k: int, d: int)
    requires d > 0 && -d < k * d < d
    ensures k == 0
  {
    if k > 0 {
      MultipleAtLeast(k, d);
    }
  }

  lemma {:induction false} MultipleAtLeast(k: nat, d: nat)
    requires k >= 1
    ensures k * d >= d
  {
    if k > 1 {
      MultipleAtLeast(k - 1, d);
      assert k * d == (k - 1) * d + d;
    }
  }

  /** Dividing `a + b` by `d` in two steps, carrying the first remainder into the second. */
  lemma DivModCarry(a: nat, b: nat, d: nat)
    requires d > 0
    ensures a / d + (a % d + b) / d == (a + b) / d
    ensures (a % d + b) % d == (a + b) % d
  {
    var c := a % d + b;
    assert a == (a / d) * d + a % d;
    assert c == (c / d) * d + c % d;
    assert a + b == (a / d + c / d) * d + c % d;
    DivModUnique(a + b, d, a / d + c / d, c % d);
  }

  /** Scaling both operands by `k` scales the remainder and keeps the quotient. */
  lemma DivModScale(x: nat, d: nat, k: nat)
    requires d > 0 && k > 0
    ensures (x * k) / (d * k) == x / d
    ensures (x * k) % (d * k) == (x % d) * k
  {
    assert x == (x / d) * d + x % d;
    assert x * k == (x / d) * (d * k) + (x % d) * k;
    assert (x % d) * k < d * k;
    DivModUnique(x * k, d * k, x / d, (x % d) * k);
  }
}
