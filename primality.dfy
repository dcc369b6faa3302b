/**
 * The arithmetic that both trial-division primality tests rest on:
 * divisibility, the mathematical definition of a prime, the exact integer
 * square root that stands for `int(math.sqrt(n))` and `int(n ** 0.5)`, and
 * the classic fact that a composite number has a factor no larger than its
 * square root.
 */
module Primality {

  /** `d` divides `n` exactly (the source tests `n % d == 0` with `d >= 2`). */
  predicate Divides(d: int, n: int)
  {
    d != 0 && n % d == 0
  }

  /** The definition of primality: at least 2 and no divisor strictly between 1 and itself. */
  ghost predicate Prime(n: int)
  {
    n >= 2 && forall d :: 2 <= d < n ==> !Divides(d, n)
  }

  /** The largest `r` with `r * r <= n`, found by counting up from `r`. */
  function IsqrtFrom(n: nat, r: nat): (s: nat)
    requires r * r <= n
    ensures s * s <= n < (s + 1) * (s + 1)
    decreases n - r
  {
    if (r + 1) * (r + 1) <= n then
      IsqrtFrom(n, r + 1)
    else r
  }

  /** The exact integer square root: `s * s <= n < (s + 1) * (s + 1)`. */
  function Isqrt(n: nat): (s: nat)
    ensures s * s <= n < (s + 1) * (s + 1)
  {
    IsqrtFrom(n, 0)
  }

  lemma MulMono(a: nat, b: nat, c: nat, d: nat)
    requires a <= c && b <= d
    ensures a * b <= c * d
  {
    assert a * b <= c * b;
    assert c * b <= c * d;
  }

  /** For `n >= 2` the square root is strictly below `n`, so a factor found up to it is a proper one. */
  lemma IsqrtBelow(n: int)
    requires n >= 2
    ensures Isqrt(n) < n
  {
    var s := Isqrt(n);
    if s >= n {
      MulMono(n, n, s, s);
      assert n * n <= s * s <= n;
      MulMono(2, n, n, n);
      assert false;
    }
  }

  /** If `n == d * q` then `q` divides `n` as well. */
  lemma CofactorDivides(n: int, d: int, q: int)
    requires d >= 1 && q >= 1 && n == d * q
    ensures Divides(q, n) && n / q == d
  {
    var t, m := n / q - d, n % q;
    assert n == q * (n / q) + m && 0 <= m < q;
    assert q * t == -m by {
      assert q * (n / q) == q * d + q * t;
    }
    if t <= -1 {
      MulMono(q, 1, q, -t);
    }
  }

  /**
   * A proper divisor `d` of `n` yields a divisor `e` with `2 <= e <= Isqrt(n)`:
   * either `d` itself or its cofactor `n / d`.
   */
  lemma {:induction false} SmallFactor(n: int, d: int) returns (e: int)
    requires 2 <= d < n && Divides(d, n)
    ensures 2 <= e <= Isqrt(n) && Divides(e, n) && (e == d || e * d == n)
  {
    var s := Isqrt(n);
    var q := n / d;
    assert n == d * q;
    assert q >= 2;
    if d <= s {
      e := d;
    } else {
      assert q <= s by {
        if q > s {
          MulMono(s + 1, s + 1, d, q);
        }
      }
      CofactorDivides(n, d, q);
      e := q;
    }
  }

  /** A divisor of an odd number is odd. */
  lemma OddDivisor(n: int, d: int)
    requires n % 2 == 1 && d >= 1 && Divides(d, n)
    ensures d % 2 == 1
  {
    var q := n / d;
    assert n == d * q;
    var k := d / 2;
    assert d % 2 == 0 ==> n == 2 * (k * q);
  }
}
