/**
 * demo1.py's `fibonacci(n)`: `n` itself when `n <= 1` (negative `n`
 * included), otherwise the pair `a, b` starts at `0, 1` and is advanced
 * `a, b = b, a + b` for each of `2, ..., n`, and `b` is returned.
 */
module Fibonacci {

  /** The Fibonacci numbers: `F(0) = 0`, `F(1) = 1`, `F(n) = F(n - 1) + F(n - 2)`. */
  function Fib(n: nat): nat
  {
    if n <= 1 then n else Fib(n - 1) + Fib(n - 2)
  }

  /** `fibonacci(n)`: the loop yields `F(n)` for every `n >= 0`, and `n` for negative `n`. */
  method Fibonacci(n: int) returns (r: int)
    ensures n <= 1 ==> r == n
    ensures n >= 0 ==> r == Fib(n)
  {
    if n <= 1 {
      return n;
    }
    var a, b := 0, 1;
    for i := 2 to n + 1
      invariant a == Fib(i - 2) && b == Fib(i - 1)
    {
      a, b := b, a + b;
    }
    return b;
  }
}
