/**
 * demo1.py's `is_prime` (trial division by every `i` from 2 up to the
 * integer square root, with an early exit) and `primes_up_to` (the list of
 * the `x` in `range(2, n + 1)` that pass it).
 */
module Primes {
  import opened Primality

  /** No `i` with `lo <= i <= hi` divides `n`. */
  function NoDivisorIn(n: int, lo: int, hi: int): (b: bool)
    ensures b <==> forall i :: lo <= i <= hi ==> !Divides(i, n)
    decreases hi - lo
  {
    if lo > hi then true else !Divides(lo, n) && NoDivisorIn(n, lo + 1, hi)
  }

  /** Trying every candidate from 2 to the square root decides primality. */
  lemma {:induction false} TrialDivisionDecides(n: int)
    requires n >= 2
    ensures NoDivisorIn(n, 2, Isqrt(n)) <==> Prime(n)
  {
    if NoDivisorIn(n, 2, Isqrt(n)) {
      forall d | 2 <= d < n
        ensures !Divides(d, n)
      {
        if Divides(d, n) {
          var e := SmallFactor(n, d);
        }
      }
    } else {
      IsqrtBelow(n);
    }
  }

  /** The value `is_prime(n)` computes: false below 2, else no divisor in `[2, isqrt(n)]`. */
  function TrialPrime(n: int): (b: bool)
    ensures b <==> Prime(n)
  {
    if n < 2 then false
    else
      TrialDivisionDecides(n);
      NoDivisorIn(n, 2, Isqrt(n))
  }

  /** `is_prime(n)`: the early-exit trial-division loop. */
  method IsPrime(n: int) returns (b: bool)
    ensures b <==> Prime(n)
    ensures b == TrialPrime(n)
  {
    if n < 2 {
      return false;
    }
    for i := 2 to Isqrt(n) + 1
      invariant forall j :: 2 <= j < i ==> !Divides(j, n)
    {
      if n % i == 0 {
        IsqrtBelow(n);
        assert Divides(i, n);
        return false;
      }
    }
    TrialDivisionDecides(n);
    return true;
  }

  /** The primes among `lo, lo + 1, ..., hi`, in the order `range` produces them. */
  function PrimesIn(lo: int, hi: int): (r: seq<int>)
    ensures forall k :: 0 <= k < |r| ==> lo <= r[k] <= hi
    ensures forall i, j :: 0 <= i < j < |r| ==> r[i] < r[j]
    ensures forall x :: x in r <==> lo <= x <= hi && Prime(x)
    decreases hi - lo
  {
    if lo > hi then []
    else
      var rest := PrimesIn(lo + 1, hi);
      (if TrialPrime(lo) then [lo] else []) + rest
  }

  /** `primes_up_to(n)`: strictly ascending, and holding exactly the primes in `[2, n]`. */
  function PrimesUpTo(n: int): (r: seq<int>)
    ensures forall i, j :: 0 <= i < j < |r| ==> r[i] < r[j]
    ensures forall x :: x in r <==> 2 <= x <= n && Prime(x)
  {
    PrimesIn(2, n)
  }

  /** Two strictly ascending sequences with the same elements are equal. */
  lemma {:induction false} AscendingUnique(a: seq<int>, b: seq<int>)
    requires forall i, j :: 0 <= i < j < |a| ==> a[i] < a[j]
    requires forall i, j :: 0 <= i < j < |b| ==> b[i] < b[j]
    requires forall x :: x in a <==> x in b
    ensures a == b
  {
    assert a == [] <==> b == [] by {
      if a != [] {
        assert a[0] in a;
      }
      if b != [] {
        assert b[0] in b;
      }
    }
    if a != [] {
      assert a[0] == b[0] by {
        assert a[0] in a && b[0] in b;
      }
      assert forall x :: x in a[1..] <==> x in b[1..] by {
        forall x ensures x in a[1..] <==> x in b[1..] {
          assert x in a[1..] <==> x in a && x != a[0];
          assert x in b[1..] <==> x in b && x != b[0];
        }
      }
      AscendingUnique(a[1..], b[1..]);
      assert a == [a[0]] + a[1..] && b == [b[0]] + b[1..];
    }
  }
}
