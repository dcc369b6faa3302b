/**
 * What demo1.py's `main` prints for its deterministic demos, derived from
 * the model: the first ten Fibonacci numbers, the primes up to 30 and the
 * most common words of the sample sentence.
 */
module Demo {
  import opened Primality
  import opened Primes
  import opened Fibonacci
  import opened Words

  /** The Fibonacci demo prints `fib(i)` for `i` in `range(10)`. */
  lemma FirstTenFibonacci()
    ensures [Fib(0), Fib(1), Fib(2), Fib(3), Fib(4), Fib(5), Fib(6), Fib(7), Fib(8), Fib(9)]
         == [0, 1, 1, 2, 3, 5, 8, 13, 21, 34]
  {
  }

  /** Which numbers from 2 to 15 are prime: a divisor for each composite, trial division for each prime. */
  lemma PrimeUpToFifteen(x: int)
    requires 2 <= x <= 15
    ensures Prime(x) <==> x in [2, 3, 5, 7, 11, 13]
  {
    if x == 2 {
      assert TrialPrime(2);
    } else if x == 3 {
      assert TrialPrime(3);
    } else if x == 4 {
      assert Divides(2, 4);
    } else if x == 5 {
      assert TrialPrime(5);
    } else if x == 6 {
      assert Divides(2, 6);
    } else if x == 7 {
      assert TrialPrime(7);
    } else if x == 8 {
      assert Divides(2, 8);
    } else if x == 9 {
      assert Divides(3, 9);
    } else if x == 10 {
      assert Divides(2, 10);
    } else if x == 11 {
      assert TrialPrime(11);
    } else if x == 12 {
      assert Divides(2, 12);
    } else if x == 13 {
      assert TrialPrime(13);
    } else if x == 14 {
      assert Divides(2, 14);
    } else if x == 15 {
      assert Divides(3, 15);
    }
  }

  /** Which numbers from 16 to 30 are prime. */
  lemma PrimeFromSixteen(x: int)
    requires 16 <= x <= 30
    ensures Prime(x) <==> x in [17, 19, 23, 29]
  {
    if x == 16 {
      assert Divides(2, 16);
    } else if x == 17 {
      assert TrialPrime(17);
    } else if x == 18 {
      assert Divides(2, 18);
    } else if x == 19 {
      assert TrialPrime(19);
    } else if x == 20 {
      assert Divides(2, 20);
    } else if x == 21 {
      assert Divides(3, 21);
    } else if x == 22 {
      assert Divides(2, 22);
    } else if x == 23 {
      assert TrialPrime(23);
    } else if x == 24 {
      assert Divides(2, 24);
    } else if x == 25 {
      assert Divides(5, 25);
    } else if x == 26 {
      assert Divides(2, 26);
    } else if x == 27 {
      assert Divides(3, 27);
    } else if x == 28 {
      assert Divides(2, 28);
    } else if x == 29 {
      assert TrialPrime(29);
    } else if x == 30 {
      assert Divides(2, 30);
    }
  }

  /** Which numbers up to 30 are prime. */
  lemma PrimeUpToThirty(x: int)
    ensures (2 <= x <= 30 && Prime(x)) <==> x in [2, 3, 5, 7, 11, 13, 17, 19, 23, 29]
  {
    if 2 <= x <= 15 {
      PrimeUpToFifteen(x);
    } else if 16 <= x <= 30 {
      PrimeFromSixteen(x);
    }
  }

  /** An ascending list holding exactly the primes up to 30 is the literal one. */
  lemma AscendingPrimesToThirty(r: seq<int>)
    requires forall i, j :: 0 <= i < j < |r| ==> r[i] < r[j]
    requires forall x :: x in r <==> 2 <= x <= 30 && Prime(x)
    ensures r == [2, 3, 5, 7, 11, 13, 17, 19, 23, 29]
  {
    var primes := [2, 3, 5, 7, 11, 13, 17, 19, 23, 29];
    assert forall i, j :: 0 <= i < j < |primes| ==> primes[i] < primes[j];
    forall x ensures x in r <==> x in primes {
      PrimeUpToThirty(x);
    }
    AscendingUnique(r, primes);
  }

  /**
   * The demo's output: `primes_up_to(30)`. The bound is a parameter equal to
   * 30 rather than the literal, because with a literal argument the verifier
   * unfolds the whole recursive computation and exhausts its resources; here
   * the result follows from the properties of `PrimesUpTo` alone.
   */
  lemma PrimesUpToThirty(n: int)
    requires n == 30
    ensures PrimesUpTo(n) == [2, 3, 5, 7, 11, 13, 17, 19, 23, 29]
  {
    AscendingPrimesToThirty(PrimesUpTo(n));
  }

  /** The words of the data-analysis demo's sample sentence, which joins them with single spaces. */
  const SampleWords: seq<string> := ["hello", "world", "hello", "python", "python", "code", "code", "code"]

  /** A run of lower-case ASCII letters is a token without capitals. */
  lemma LowerCaseWord(w: string)
    requires |w| > 0 && forall i :: 0 <= i < |w| ==> 'a' <= w[i] <= 'z'
    ensures IsWord(w) && forall i :: 0 <= i < |w| ==> !('A' <= w[i] <= 'Z')
  {
  }

  /** Every sample word is a lower-case token. */
  lemma SampleWordsLowerCase()
    ensures forall k :: 0 <= k < |SampleWords| ==> IsWord(SampleWords[k])
    ensures forall k, i :: 0 <= k < |SampleWords| && 0 <= i < |SampleWords[k]| ==> !('A' <= SampleWords[k][i] <= 'Z')
  {
    LowerCaseWord("hello");
    LowerCaseWord("world");
    LowerCaseWord("python");
    LowerCaseWord("code");
  }

  /** Splitting the lower-cased sample sentence gives back its eight words. */
  lemma SampleTokens(text: string)
    requires text == JoinSpaced(SampleWords)
    ensures Tokens(text) == SampleWords
  {
    SampleWordsLowerCase();
    JoinSpacedNoCapitals(SampleWords);
    LowerOfLower(text);
    SplitJoinSpaced(SampleWords);
  }

  /** `Counter` run over the first four sample words, one counting step at a time. */
  lemma SampleTallyFirstHalf()
    ensures Tally(["hello", "world", "hello", "python"]) == [("hello", 2), ("world", 1), ("python", 1)]
  {
    TallyStep([], "hello");
    assert [] + ["hello"] == ["hello"];
    TallyStep(["hello"], "world");
    assert ["hello"] + ["world"] == ["hello", "world"];
    assert Bump([("hello", 1)], "world") == [("hello", 1), ("world", 1)];
    TallyStep(["hello", "world"], "hello");
    assert ["hello", "world"] + ["hello"] == ["hello", "world", "hello"];
    assert Bump([("world", 1)], "hello") == [("world", 1), ("hello", 1)];
    assert Bump([("hello", 1), ("world", 1)], "hello") == [("hello", 2), ("world", 1)];
    TallyStep(["hello", "world", "hello"], "python");
    assert ["hello", "world", "hello"] + ["python"] == ["hello", "world", "hello", "python"];
    assert Bump([("world", 1)], "python") == [("world", 1), ("python", 1)];
    assert Bump([("hello", 2), ("world", 1)], "python") == [("hello", 2), ("world", 1), ("python", 1)];
  }

  /** `Counter` run over the first six sample words. */
  lemma SampleTallySix()
    ensures Tally(["hello", "world", "hello", "python", "python", "code"])
         == [("hello", 2), ("world", 1), ("python", 2), ("code", 1)]
  {
    SampleTallyFirstHalf();
    TallyStep(["hello", "world", "hello", "python"], "python");
    assert ["hello", "world", "hello", "python"] + ["python"] == ["hello", "world", "hello", "python", "python"];
    assert Bump([("python", 1)], "python") == [("python", 2)];
    assert Bump([("world", 1), ("python", 1)], "python") == [("world", 1), ("python", 2)];
    assert Bump([("hello", 2), ("world", 1), ("python", 1)], "python") == [("hello", 2), ("world", 1), ("python", 2)];
    TallyStep(["hello", "world", "hello", "python", "python"], "code");
    assert ["hello", "world", "hello", "python", "python"] + ["code"] == ["hello", "world", "hello", "python", "python", "code"];
    assert Bump([("python", 2)], "code") == [("python", 2), ("code", 1)];
    assert Bump([("world", 1), ("python", 2)], "code") == [("world", 1), ("python", 2), ("code", 1)];
    assert Bump([("hello", 2), ("world", 1), ("python", 2)], "code") == [("hello", 2), ("world", 1), ("python", 2), ("code", 1)];
  }

  /** `Counter` run over all eight sample words. */
  lemma SampleTally()
    ensures Tally(SampleWords) == [("hello", 2), ("world", 1), ("python", 2), ("code", 3)]
  {
    SampleTallySix();
    TallyStep(["hello", "world", "hello", "python", "python", "code"], "code");
    assert ["hello", "world", "hello", "python", "python", "code"] + ["code"] == ["hello", "world", "hello", "python", "python", "code", "code"];
    assert Bump([("code", 1)], "code") == [("code", 2)];
    assert Bump([("python", 2), ("code", 1)], "code") == [("python", 2), ("code", 2)];
    assert Bump([("world", 1), ("python", 2), ("code", 1)], "code") == [("world", 1), ("python", 2), ("code", 2)];
    assert Bump([("hello", 2), ("world", 1), ("python", 2), ("code", 1)], "code") == [("hello", 2), ("world", 1), ("python", 2), ("code", 2)];
    TallyStep(["hello", "world", "hello", "python", "python", "code", "code"], "code");
    assert ["hello", "world", "hello", "python", "python", "code", "code"] + ["code"] == ["hello", "world", "hello", "python", "python", "code", "code", "code"];
    assert Bump([("code", 2)], "code") == [("code", 3)];
    assert Bump([("python", 2), ("code", 2)], "code") == [("python", 2), ("code", 3)];
    assert Bump([("world", 1), ("python", 2), ("code", 2)], "code") == [("world", 1), ("python", 2), ("code", 3)];
    assert Bump([("hello", 2), ("world", 1), ("python", 2), ("code", 2)], "code") == [("hello", 2), ("world", 1), ("python", 2), ("code", 3)];
  }

  /** `word_count` of the sample: each word with its count, in order of first occurrence. */
  lemma SampleWordCount(text: string)
    requires text == JoinSpaced(SampleWords)
    ensures WordCount(text) == [("hello", 2), ("world", 1), ("python", 2), ("code", 3)]
  {
    SampleTokens(text);
    SampleTally();
  }

  /** The stable sort by count of the sample's dictionary. */
  lemma SampleRanking()
    ensures SortByCount([("hello", 2), ("world", 1), ("python", 2), ("code", 3)])
         == [("code", 3), ("hello", 2), ("python", 2), ("world", 1)]
  {
    var d := [("hello", 2), ("world", 1), ("python", 2), ("code", 3)];
    assert d[1..][1..][1..] == [("code", 3)];
    assert SortByCount([("code", 3)]) == [("code", 3)];
    assert SortByCount(d[1..][1..]) == InsertByCount(("python", 2), [("code", 3)]) == [("code", 3), ("python", 2)];
    assert InsertByCount(("world", 1), [("python", 2)]) == [("python", 2), ("world", 1)];
    assert SortByCount(d[1..]) == InsertByCount(("world", 1), [("code", 3), ("python", 2)])
        == [("code", 3), ("python", 2), ("world", 1)];
    assert InsertByCount(("hello", 2), [("python", 2), ("world", 1)]) == [("hello", 2), ("python", 2), ("world", 1)];
    assert SortByCount(d) == InsertByCount(("hello", 2), [("code", 3), ("python", 2), ("world", 1)]);
  }

  /** `most_common_words` of the sample with the default `n = 5`. */
  lemma SampleMostCommonWords(text: string)
    requires text == JoinSpaced(SampleWords)
    ensures MostCommonWords(text, 5) == ["code", "hello", "python", "world"]
  {
    SampleWordCount(text);
    SampleRanking();
    var s := [("code", 3), ("hello", 2), ("python", 2), ("world", 1)];
    assert Take(s, 5) == s;
    assert Keys(s) == ["code", "hello", "python", "world"];
  }
}
