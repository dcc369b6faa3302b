/**
 * NB_premier_threading.py: worker threads take numbers from a task queue,
 * test them with an odd-only trial division and put `(n, verdict)` on a
 * result queue; a `None` on the task queue tells a worker to stop; `main`
 * collects, sorts and prints the results.
 *
 * The model is sequential: each worker runs to completion before the next
 * starts, and a `get` on an empty queue, which would block, ends the
 * worker's loop instead.
 */
module PrimeFinding {
  import opened Wrappers
  import opened Primality
  import Primes
  import opened Decimal

  // ---------------------------------------------------------------------
  // PrimeFinder.is_prime
  // ---------------------------------------------------------------------

  /** No odd `i` with `lo <= i <= hi` divides `n` (`lo` odd). */
  function NoOddDivisorIn(n: int, lo: int, hi: int): bool
    requires lo % 2 == 1
    decreases hi - lo
  {
    if lo > hi then true else !Divides(lo, n) && NoOddDivisorIn(n, lo + 2, hi)
  }

  lemma {:induction false} NoOddDivisorInMeaning(n: int, lo: int, hi: int)
    requires lo % 2 == 1
    ensures NoOddDivisorIn(n, lo, hi) <==> forall i :: lo <= i <= hi && i % 2 == 1 ==> !Divides(i, n)
    decreases hi - lo
  {
    if lo <= hi {
      NoOddDivisorInMeaning(n, lo + 2, hi);
    }
  }

  /** For odd `n`, only odd candidates can divide it, so skipping the even ones decides nothing differently. */
  lemma OddTrialDecides(n: int)
    requires n >= 3 && n % 2 == 1
    ensures NoOddDivisorIn(n, 3, Isqrt(n)) <==> Primes.NoDivisorIn(n, 2, Isqrt(n))
  {
    NoOddDivisorInMeaning(n, 3, Isqrt(n));
    forall i | 2 <= i <= Isqrt(n) && Divides(i, n)
      ensures i % 2 == 1 && i >= 3
    {
      OddDivisor(n, i);
    }
  }

  /**
   * The value `PrimeFinder.is_prime(n)` computes: false below 2, true for 2,
   * false for the other even numbers, and otherwise no odd divisor from 3 up
   * to the square root. It is primality, and so agrees with demo1.py's test.
   */
  function OddTrialPrime(n: int): (b: bool)
    ensures b <==> Prime(n)
    ensures b == Primes.TrialPrime(n)
  {
    if n < 2 then false
    else if n == 2 then true
    else if n % 2 == 0 then (assert Divides(2, n); false)
    else
      OddTrialDecides(n);
      Primes.TrialDivisionDecides(n);
      NoOddDivisorIn(n, 3, Isqrt(n))
  }

  /** `PrimeFinder.is_prime(n)`: the early-return loop over `range(3, isqrt(n) + 1, 2)`. */
  method IsPrime(n: int) returns (b: bool)
    ensures b == OddTrialPrime(n)
    ensures b <==> Prime(n)
  {
    if n < 2 {
      return false;
    }
    if n == 2 {
      return true;
    }
    if n % 2 == 0 {
      return false;
    }
    var hi: int := Isqrt(n);
    var i: int := 3;
    while i <= hi
      invariant 3 <= i && i % 2 == 1
      invariant NoOddDivisorIn(n, i, hi) == NoOddDivisorIn(n, 3, hi)
      decreases hi - i
    {
      if n % i == 0 {
        return false;
      }
      i := i + 2;
    }
    return true;
  }

  // ---------------------------------------------------------------------
  // queue.Queue
  // ---------------------------------------------------------------------

  /** What the task queue carries: a number to test, or `None` telling a worker to stop. */
  datatype Item = Task(n: int) | Sentinel

  /** `queue.Queue`: first in, first out, with the count of items not yet acknowledged by `task_done`. */
  class Queue<T> {
    var items: seq<T>
    var unfinished: nat

    constructor()
      ensures items == [] && unfinished == 0
    {
      items := [];
      unfinished := 0;
    }

    /** `put(x)`: appended at the back, and one more unfinished item. */
    method Put(x: T)
      modifies this
      ensures items == old(items) + [x]
      ensures unfinished == old(unfinished) + 1
    {
      items := items + [x];
      unfinished := unfinished + 1;
    }

    /** `get()`: the front item; `None` where the source's call would block on an empty queue. */
    method Get() returns (x: Option<T>)
      modifies this
      ensures old(items) == [] ==> x == None && items == []
      ensures old(items) != [] ==> x == Some(old(items)[0]) && items == old(items)[1..]
      ensures unfinished == old(unfinished)
    {
      if items == [] {
        return None;
      }
      x := Some(items[0]);
      items := items[1..];
    }

    /** `task_done()`: one item fewer unfinished; `false` where the source raises `ValueError` (called too often). */
    method TaskDone() returns (ok: bool)
      modifies this
      ensures ok <==> old(unfinished) > 0
      ensures items == old(items)
      ensures unfinished == if ok then old(unfinished) - 1 else old(unfinished)
    {
      if unfinished == 0 {
        return false;
      }
      unfinished := unfinished - 1;
      return true;
    }
  }

  // ---------------------------------------------------------------------
  // PrimeFinder.run
  // ---------------------------------------------------------------------

  /** What one worker puts on the result queue while draining `items`: a verdict per number before the first `None`. */
  function Outcomes(items: seq<Item>): seq<(int, bool)>
  {
    if items == [] then []
    else match items[0]
      case Sentinel => []
      case Task(n) => [(n, OddTrialPrime(n))] + Outcomes(items[1..])
  }

  /** How many items one worker takes from `items` (each acknowledged once): up to and including the first `None`. */
  function Taken(items: seq<Item>): (t: nat)
    ensures t <= |items|
  {
    if items == [] then 0
    else match items[0]
      case Sentinel => 1
      case Task(_) => 1 + Taken(items[1..])
  }

  /** The queue holding `numbers` as tasks, in order. */
  function Tasks(numbers: seq<int>): seq<Item>
  {
    seq(|numbers|, i requires 0 <= i < |numbers| => Task(numbers[i]))
  }

  /** Each number with its verdict, in order. */
  function Verdicts(numbers: seq<int>): seq<(int, bool)>
  {
    seq(|numbers|, i requires 0 <= i < |numbers| => (numbers[i], OddTrialPrime(numbers[i])))
  }

  /**
   * A worker draining `tasks ++ [None] ++ rest` puts exactly one verdict per
   * task, in order, takes and acknowledges `|tasks| + 1` items and leaves `rest`;
   * the `None` itself is only acknowledged.
   */
  lemma {:induction false} WorkerDrain(numbers: seq<int>, rest: seq<Item>)
    ensures Outcomes(Tasks(numbers) + [Sentinel] + rest) == Verdicts(numbers)
    ensures Taken(Tasks(numbers) + [Sentinel] + rest) == |numbers| + 1
    ensures (Tasks(numbers) + [Sentinel] + rest)[Taken(Tasks(numbers) + [Sentinel] + rest)..] == rest
    ensures forall i :: 0 <= i < |numbers| ==> (Verdicts(numbers)[i].1 <==> Prime(numbers[i]))
    decreases |numbers|
  {
    var q := Tasks(numbers) + [Sentinel] + rest;
    if numbers == [] {
      assert q == [Sentinel] + rest;
    } else {
      var tail := numbers[1..];
      WorkerDrain(tail, rest);
      assert q[1..] == Tasks(tail) + [Sentinel] + rest;
      assert Verdicts(numbers) == [(numbers[0], OddTrialPrime(numbers[0]))] + Verdicts(tail);
    }
  }

  class PrimeFinder {
    const taskQueue: Queue<Item>
    const resultQueue: Queue<(int, bool)>

    constructor(taskQueue: Queue<Item>, resultQueue: Queue<(int, bool)>)
      ensures this.taskQueue == taskQueue && this.resultQueue == resultQueue
    {
      this.taskQueue := taskQueue;
      this.resultQueue := resultQueue;
    }

    /**
     * `run()`: take items until the first `None`, putting `(n, is_prime(n))`
     * for each number and acknowledging every item taken, the `None` included.
     */
    method Run()
      requires taskQueue.unfinished >= |taskQueue.items|
      modifies taskQueue, resultQueue
      ensures taskQueue.items == old(taskQueue.items)[Taken(old(taskQueue.items))..]
      ensures resultQueue.items == old(resultQueue.items) + Outcomes(old(taskQueue.items))
      ensures taskQueue.unfinished == old(taskQueue.unfinished) - Taken(old(taskQueue.items))
      ensures resultQueue.unfinished == old(resultQueue.unfinished) + |Outcomes(old(taskQueue.items))|
    {
      ghost var start := taskQueue.items;
      ghost var c := 0;
      while true
        invariant 0 <= c <= |start| && taskQueue.items == start[c..]
        invariant c + Taken(start[c..]) == Taken(start)
        invariant resultQueue.items + Outcomes(start[c..]) == old(resultQueue.items) + Outcomes(start)
        invariant taskQueue.unfinished + c == old(taskQueue.unfinished)
        invariant resultQueue.unfinished - |resultQueue.items| == old(resultQueue.unfinished) - |old(resultQueue.items)|
        decreases |taskQueue.items|
      {
        var item := taskQueue.Get();
        match item
        case None =>
          return;
        case Some(Sentinel) =>
          var ok := taskQueue.TaskDone();
          assert start[c..][1..] == start[c + 1..];
          return;
        case Some(Task(n)) =>
          var verdict := IsPrime(n);
          assert start[c..][1..] == start[c + 1..];
          resultQueue.Put((n, verdict));
          var ok := taskQueue.TaskDone();
          c := c + 1;
      }
    }
  }

  // ---------------------------------------------------------------------
  // main
  // ---------------------------------------------------------------------

  const NumWorkers: nat := 4

  /** Python's order on `(n, is_prime)` tuples: by `n`, then `False` before `True`. */
  predicate PairLe(a: (int, bool), b: (int, bool))
  {
    a.0 < b.0 || (a.0 == b.0 && (a.1 ==> b.1))
  }

  predicate SortedPairs(s: seq<(int, bool)>)
  {
    forall i, j :: 0 <= i < j < |s| ==> PairLe(s[i], s[j])
  }

  function InsertPair(x: (int, bool), s: seq<(int, bool)>): seq<(int, bool)>
  {
    if s == [] || PairLe(x, s[0]) then [x] + s else [s[0]] + InsertPair(x, s[1..])
  }

  /** `results.sort()`. */
  function SortPairs(s: seq<(int, bool)>): seq<(int, bool)>
  {
    if s == [] then [] else InsertPair(s[0], SortPairs(s[1..]))
  }

  /** `b` is at or below every element of `s`. */
  ghost predicate Below(b: (int, bool), s: seq<(int, bool)>)
  {
    forall k :: 0 <= k < |s| ==> PairLe(b, s[k])
  }

  lemma SortedCons(b: (int, bool), s: seq<(int, bool)>)
    ensures SortedPairs([b] + s) <==> Below(b, s) && SortedPairs(s)
  {
    var t := [b] + s;
    assert forall k :: 0 <= k < |s| ==> t[k + 1] == s[k];
    if SortedPairs(t) {
      forall i, j | 0 <= i < j < |s| ensures PairLe(s[i], s[j]) {
        assert t[i + 1] == s[i] && t[j + 1] == s[j];
      }
      forall k | 0 <= k < |s| ensures PairLe(b, s[k]) {
        assert t[0] == b && t[k + 1] == s[k];
      }
    }
    if Below(b, s) && SortedPairs(s) {
      forall i, j | 0 <= i < j < |t| ensures PairLe(t[i], t[j]) {
        if i == 0 {
          assert t[j] == s[j - 1];
        } else {
          assert t[i] == s[i - 1] && t[j] == s[j - 1];
        }
      }
    }
  }

  lemma {:induction false} InsertPairBelow(b: (int, bool), x: (int, bool), s: seq<(int, bool)>)
    requires PairLe(b, x) && Below(b, s)
    ensures Below(b, InsertPair(x, s))
    decreases |s|
  {
    if s != [] && !PairLe(x, s[0]) {
      InsertPairBelow(b, x, s[1..]);
      var r := InsertPair(x, s[1..]);
      assert InsertPair(x, s) == [s[0]] + r;
    }
  }

  lemma {:induction false} InsertPairSorted(x: (int, bool), s: seq<(int, bool)>)
    requires SortedPairs(s)
    ensures SortedPairs(InsertPair(x, s))
    decreases |s|
  {
    if s == [] || PairLe(x, s[0]) {
      SortedCons(x, s);
    } else {
      var r := InsertPair(x, s[1..]);
      SortedCons(s[0], s[1..]);
      assert s == [s[0]] + s[1..];
      InsertPairSorted(x, s[1..]);
      InsertPairBelow(s[0], x, s[1..]);
      SortedCons(s[0], r);
    }
  }

  lemma {:induction false} InsertPairCount(x: (int, bool), s: seq<(int, bool)>)
    ensures multiset(InsertPair(x, s)) == multiset(s) + multiset{x}
    decreases |s|
  {
    if s != [] && !PairLe(x, s[0]) {
      InsertPairCount(x, s[1..]);
      assert s == [s[0]] + s[1..];
    }
  }

  /** The sorted results are in Python's tuple order and are a permutation of the input. */
  lemma {:induction false} SortPairsSpec(s: seq<(int, bool)>)
    ensures SortedPairs(SortPairs(s))
    ensures multiset(SortPairs(s)) == multiset(s)
    decreases |s|
  {
    if s != [] {
      SortPairsSpec(s[1..]);
      InsertPairSorted(s[0], SortPairs(s[1..]));
      InsertPairCount(s[0], SortPairs(s[1..]));
      assert s == [s[0]] + s[1..];
    }
  }

  /** The printed line `f"{n} is {'prime' if is_prime else 'not prime'}"`. */
  function Line(n: int, verdict: bool): string
  {
    IntToString(n) + (if verdict then " is prime" else " is not prime")
  }

  lemma SpaceAfter(a: string, b: string)
    requires forall i :: 0 <= i < |a| ==> a[i] != ' '
    requires b != [] && b[0] == ' '
    ensures (a + b)[|a|] == ' ' && forall i :: 0 <= i < |a| ==> (a + b)[i] != ' '
  {
  }

  /** Text before the first space of `a + b`, when `a` has none and `b` starts with one. */
  lemma FirstSpace(a: string, b: string, c: string, d: string)
    requires forall i :: 0 <= i < |a| ==> a[i] != ' '
    requires forall i :: 0 <= i < |c| ==> c[i] != ' '
    requires b != [] && b[0] == ' ' && d != [] && d[0] == ' '
    requires a + b == c + d
    ensures a == c && b == d
  {
    SpaceAfter(a, b);
    SpaceAfter(c, d);
    assert a == (a + b)[..|a|] && c == (c + d)[..|c|];
    assert b == (a + b)[|a|..] && d == (c + d)[|c|..];
  }

  /** Each printed line tells its number and verdict back: different results never print alike. */
  lemma LineDetermines(n: int, verdict: bool, m: int, other: bool)
    requires Line(n, verdict) == Line(m, other)
    ensures n == m && verdict == other
  {
    IntToStringRoundTrip(n);
    IntToStringRoundTrip(m);
    FirstSpace(IntToString(n), if verdict then " is prime" else " is not prime",
               IntToString(m), if other then " is prime" else " is not prime");
    assert " is prime" != " is not prime";
  }

  function Lines(results: seq<(int, bool)>): seq<string>
  {
    seq(|results|, i requires 0 <= i < |results| => Line(results[i].0, results[i].1))
  }

  /**
   * The report of `main`: one line per number, in Python's tuple order, each
   * line telling whether its number is prime, and the numbers those of the
   * input with their multiplicities.
   */
  lemma ReportContents(numbers: seq<int>)
    ensures var r := SortPairs(Verdicts(numbers));
      && SortedPairs(r)
      && multiset(r) == multiset(Verdicts(numbers))
      && |Lines(r)| == |numbers|
      && forall i :: 0 <= i < |r| ==> Lines(r)[i] == Line(r[i].0, Prime(r[i].0))
  {
    var r := SortPairs(Verdicts(numbers));
    SortPairsSpec(Verdicts(numbers));
    assert |r| == |Verdicts(numbers)| by {
      assert |multiset(r)| == |multiset(Verdicts(numbers))|;
    }
    forall i | 0 <= i < |r|
      ensures r[i].1 == OddTrialPrime(r[i].0)
    {
      assert r[i] in multiset(Verdicts(numbers));
    }
  }

  /** `k` stop markers. */
  function Sentinels(k: nat): seq<Item>
  {
    seq(k, _ => Sentinel)
  }

  /** `main`'s two filling loops: every number, then one `None` per worker. */
  method Fill(taskQueue: Queue<Item>, numbers: seq<int>)
    modifies taskQueue
    ensures taskQueue.items == old(taskQueue.items) + Tasks(numbers) + Sentinels(NumWorkers)
    ensures taskQueue.unfinished == old(taskQueue.unfinished) + |numbers| + NumWorkers
  {
    for i := 0 to |numbers|
      invariant taskQueue.items == old(taskQueue.items) + Tasks(numbers[..i])
      invariant taskQueue.unfinished == old(taskQueue.unfinished) + i
    {
      taskQueue.Put(Task(numbers[i]));
      assert Tasks(numbers[..i + 1]) == Tasks(numbers[..i]) + [Task(numbers[i])];
    }
    assert numbers[..|numbers|] == numbers;
    for k := 0 to NumWorkers
      invariant taskQueue.items == old(taskQueue.items) + Tasks(numbers) + Sentinels(k)
      invariant taskQueue.unfinished == old(taskQueue.unfinished) + |numbers| + k
    {
      taskQueue.Put(Sentinel);
      assert Sentinels(k + 1) == Sentinels(k) + [Sentinel];
    }
  }

  /**
   * The workers one after the other: the first drains every number and one
   * `None`, each other one takes a `None`. Afterwards every item has been
   * acknowledged, so `task_queue.join()` returns.
   */
  method RunWorkers(taskQueue: Queue<Item>, resultQueue: Queue<(int, bool)>, numbers: seq<int>)
    requires taskQueue.items == Tasks(numbers) + Sentinels(NumWorkers)
    requires taskQueue.unfinished == |taskQueue.items|
    modifies taskQueue, resultQueue
    ensures taskQueue.items == [] && taskQueue.unfinished == 0
    ensures resultQueue.items == old(resultQueue.items) + Verdicts(numbers)
  {
    var first := new PrimeFinder(taskQueue, resultQueue);
    WorkerDrain(numbers, Sentinels(NumWorkers - 1));
    assert Sentinels(NumWorkers) == [Sentinel] + Sentinels(NumWorkers - 1);
    assert taskQueue.items == Tasks(numbers) + [Sentinel] + Sentinels(NumWorkers - 1);
    first.Run();
    for k := 1 to NumWorkers
      invariant taskQueue.items == Sentinels(NumWorkers - k)
      invariant taskQueue.unfinished == NumWorkers - k
      invariant resultQueue.items == old(resultQueue.items) + Verdicts(numbers)
    {
      var worker := new PrimeFinder(taskQueue, resultQueue);
      WorkerDrain([], Sentinels(NumWorkers - k - 1));
      assert taskQueue.items == Tasks([]) + [Sentinel] + Sentinels(NumWorkers - k - 1);
      worker.Run();
    }
  }

  /** `while not result_queue.empty(): results.append(result_queue.get())`. */
  method Collect(resultQueue: Queue<(int, bool)>) returns (results: seq<(int, bool)>)
    modifies resultQueue
    ensures results == old(resultQueue.items) && resultQueue.items == []
  {
    results := [];
    while resultQueue.items != []
      invariant results + resultQueue.items == old(resultQueue.items)
      decreases |resultQueue.items|
    {
      var r := resultQueue.Get();
      results := results + [r.value];
    }
  }

  /**
   * `main()`, run sequentially: fill the task queue, run the workers, collect
   * the results, sort them and format one line per result.
   */
  method Report(numbers: seq<int>) returns (lines: seq<string>)
    ensures lines == Lines(SortPairs(Verdicts(numbers)))
  {
    var taskQueue := new Queue<Item>();
    var resultQueue := new Queue<(int, bool)>();
    Fill(taskQueue, numbers);
    assert taskQueue.items == Tasks(numbers) + Sentinels(NumWorkers);
    RunWorkers(taskQueue, resultQueue, numbers);
    assert resultQueue.items == Verdicts(numbers);
    var results := Collect(resultQueue);
    results := SortPairs(results);
    lines := Lines(results);
  }
}
