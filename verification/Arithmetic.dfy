/**
 Multiplication as repeated addition, so that proofs by induction stay linear and the product appears at
 the end; and the uniqueness of remainders.
 */
module Arithmetic {

  /** `q` added up `n` times. */
  ghost function Times(q: int, n: nat): int {
    if n == 0 then 0 else Times(q, n - 1) + q
  }

  lemma {:induction false} TimesIsProduct(q: int, n: nat)
    ensures Times(q, n) == q * n
  {
    if n > 0 {
      TimesIsProduct(q, n - 1);
      assert q * n == q * (n - 1) + q;
    }
  }

  lemma {:induction false} TimesMonotone(q: nat, a: nat, b: nat)
    requires a <= b
    ensures Times(q, a) <= Times(q, b)
    decreases b
  {
    if a < b {
      TimesMonotone(q, a, b - 1);
    }
  }

  lemma {:induction false} TimesAdd(q: int, a: nat, b: nat)
    ensures Times(q, a + b) == Times(q, a) + Times(q, b)
  {
    if b > 0 {
      TimesAdd(q, a, b - 1);
    }
  }

  lemma {:induction false} TimesStrict(q: nat, a: nat, b: nat)
    requires a < b && q > 0
    ensures Times(q, a) < Times(q, b)
  {
    TimesMonotone(q, a, b - 1);
  }

  lemma {:induction false} Multiples(n: int, d: int)
    requires n > 0
    ensures (d >= 1 ==> n * d >= n) && (d <= -1 ==> n * d <= -n) && (d == 0 ==> n * d == 0)
  {
    if d >= 1 {
      assert n * d == n + n * (d - 1);
    } else if d <= -1 {
      assert n * d == -n - n * (-d - 1);
    }
  }

  lemma {:induction false} UniqueQuotient(x: int, n: int, q: int, r: int)
    requires n > 0 && x == n * q + r && 0 <= r < n
    ensures x / n == q
  {
    assert n * (x / n) - n * q == n * (x / n - q);
    Multiples(n, x / n - q);
  }

  lemma {:induction false} UniqueRemainder(x: int, n: int, q: int, r: int)
    requires n > 0 && x == n * q + r && 0 <= r < n
    ensures x % n == r
  {
    assert n * (x / n) - n * q == n * (x / n - q);
    Multiples(n, x / n - q);
  }
}
