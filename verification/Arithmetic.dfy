/** Facts about products, quotients and remainders of unknown numbers, kept apart
    so that no other proof has to reason about them. */
module Arithmetic {

  lemma {:induction false} SmallMultiple(k: int, n: int)
    requires -n < k * n < n
    ensures k == 0
  {
    assert k >= 1 ==> k * n >= n;
    assert k <= -1 ==> k * n <= -n;
  }

  lemma {:induction false} Distribute(a: int, b: int, n: int)
    ensures (a - b) * n == a * n - b * n
  {
  }

  lemma {:induction false} QuotientUnique(x: int, n: int, q: int, r: int)
    requires 0 <= r < n && x == q * n + r
    ensures x % n == r && x / n == q
  {
    Distribute(x / n, q, n);
    SmallMultiple(x / n - q, n);
  }

  lemma {:induction false} TimesMonotone(b: nat, x: nat, y: nat)
    requires x < y
    ensures b * x + b <= b * y
  {
    if x + 1 < y { TimesMonotone(b, x, y - 1); }
  }

  lemma {:induction false} QuotientAtLeast(a: nat, b: nat, k: nat)
    requires b > 0 && a >= b * k
    ensures a / b >= k
  {
    var q := a / b;
    assert a < b * q + b;
    if q < k { TimesMonotone(b, q, k); }
  }

  lemma {:induction false} QuotientTimes(a: nat, b: nat, i: nat)
    requires b > 0 && i < a / b
    ensures i * b + b <= a
  {
    TimesMonotone(b, i, a / b);
    assert b * (a / b) <= a;
  }
}
