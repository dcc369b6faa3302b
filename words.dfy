/**
 * demo1.py's text analysis: `word_count(text)` lower-cases the text, splits
 * it on runs of whitespace and counts each token with `Counter`;
 * `most_common_words(text, n)` sorts the keys of that dictionary by count,
 * highest first, and keeps the first `n`.
 *
 * Text is taken to be ASCII: `str.lower` maps `A`-`Z` only and the
 * separators of `str.split()` are the ASCII characters Python treats as
 * whitespace.
 */
module Words {

  /** The ASCII characters `str.split()` separates on: space, `\t \n \v \f \r` and `\x1c`-`\x1f`. */
  predicate IsSpace(c: char)
  {
    c == ' ' || '\t' <= c <= '\r' || '\U{1c}' <= c <= '\U{1f}'
  }

  function LowerChar(c: char): (r: char)
  {
    if 'A' <= c <= 'Z' then (c as int + 32) as char else c
  }

  /** `text.lower()` on ASCII text. */
  function Lower(s: string): (r: string)
    ensures |r| == |s|
    ensures forall i :: 0 <= i < |s| ==> !('A' <= r[i] <= 'Z')
    ensures forall i :: 0 <= i < |s| ==> (IsSpace(r[i]) <==> IsSpace(s[i]))
    ensures forall i :: 0 <= i < |s| ==>
              if 'A' <= s[i] <= 'Z' then r[i] as int == s[i] as int + 32 else r[i] == s[i]
  {
    seq(|s|, i requires 0 <= i < |s| => LowerChar(s[i]))
  }

  /** Text without capital letters is its own lower case. */
  lemma LowerOfLower(s: string)
    requires forall i :: 0 <= i < |s| ==> !('A' <= s[i] <= 'Z')
    ensures Lower(s) == s
  {
  }

  /** Words without capital letters, joined by spaces, give text without capital letters. */
  lemma {:induction false} JoinSpacedNoCapitals(words: seq<string>)
    requires forall k, i :: 0 <= k < |words| && 0 <= i < |words[k]| ==> !('A' <= words[k][i] <= 'Z')
    ensures forall i :: 0 <= i < |JoinSpaced(words)| ==> !('A' <= JoinSpaced(words)[i] <= 'Z')
    decreases |words|
  {
    if |words| > 1 {
      JoinSpacedNoCapitals(words[1..]);
      assert JoinSpaced(words) == words[0] + " " + JoinSpaced(words[1..]);
      assert forall i :: 0 <= i < |words[0]| ==> !('A' <= words[0][i] <= 'Z');
    } else if |words| == 1 {
      assert forall i :: 0 <= i < |words[0]| ==> !('A' <= words[0][i] <= 'Z');
    }
  }

  /** A token of `split()`: non-empty, with no whitespace in it. */
  predicate IsWord(w: string)
  {
    |w| > 0 && forall i :: 0 <= i < |w| ==> !IsSpace(w[i])
  }

  /** The length of the run of non-whitespace characters at the front of `s`. */
  function TokenLength(s: string): (n: nat)
    ensures n <= |s|
    ensures forall i :: 0 <= i < n ==> !IsSpace(s[i])
    ensures n < |s| ==> IsSpace(s[n])
  {
    if s == [] || IsSpace(s[0]) then 0 else 1 + TokenLength(s[1..])
  }

  /** `s.split()`: the maximal runs of non-whitespace characters, left to right. */
  function Split(s: string): (words: seq<string>)
    ensures forall k :: 0 <= k < |words| ==> IsWord(words[k])
    decreases |s|
  {
    if s == [] then []
    else if IsSpace(s[0]) then Split(s[1..])
    else
      var n := TokenLength(s);
      [s[..n]] + Split(s[n..])
  }

  /** The characters of `s` that are not whitespace, in order. */
  function NonSpace(s: string): string
  {
    if s == [] then [] else (if IsSpace(s[0]) then [] else [s[0]]) + NonSpace(s[1..])
  }

  function Concat(words: seq<string>): string
  {
    if words == [] then [] else words[0] + Concat(words[1..])
  }

  /** The words joined by single spaces, `" ".join(words)`. */
  function JoinSpaced(words: seq<string>): string
  {
    if words == [] then []
    else if |words| == 1 then words[0]
    else words[0] + " " + JoinSpaced(words[1..])
  }

  lemma {:induction false} NonSpaceAppend(a: string, b: string)
    ensures NonSpace(a + b) == NonSpace(a) + NonSpace(b)
    decreases |a|
  {
    if a != [] {
      assert (a + b)[1..] == a[1..] + b;
      NonSpaceAppend(a[1..], b);
    } else {
      assert a + b == b;
    }
  }

  lemma {:induction false} NonSpaceOfWord(w: string)
    requires forall i :: 0 <= i < |w| ==> !IsSpace(w[i])
    ensures NonSpace(w) == w
    decreases |w|
  {
    if w != [] {
      NonSpaceOfWord(w[1..]);
      assert w == [w[0]] + w[1..];
    }
  }

  /** `split()` loses nothing but whitespace: its tokens, concatenated, are the non-whitespace characters. */
  lemma {:induction false} SplitKeepsText(s: string)
    ensures Concat(Split(s)) == NonSpace(s)
    decreases |s|
  {
    if s != [] {
      if IsSpace(s[0]) {
        SplitKeepsText(s[1..]);
      } else {
        var n := TokenLength(s);
        assert s == s[..n] + s[n..];
        SplitKeepsText(s[n..]);
        NonSpaceAppend(s[..n], s[n..]);
        NonSpaceOfWord(s[..n]);
        assert Split(s)[1..] == Split(s[n..]);
      }
    }
  }

  /** Splitting a word followed by nothing or by whitespace yields that word first. */
  lemma {:induction false} SplitWordFirst(w: string, rest: string)
    requires IsWord(w)
    requires rest == [] || IsSpace(rest[0])
    ensures Split(w + rest) == [w] + Split(rest)
  {
    var s := w + rest;
    TokenLengthOf(w, rest);
    assert s[..|w|] == w && s[|w|..] == rest;
  }

  /** Whitespace in front of the text adds no token. */
  lemma {:induction false} SplitLeadingSpace(sp: string, rest: string)
    requires forall i :: 0 <= i < |sp| ==> IsSpace(sp[i])
    ensures Split(sp + rest) == Split(rest)
    decreases |sp|
  {
    if sp != [] {
      assert (sp + rest)[1..] == sp[1..] + rest;
      SplitLeadingSpace(sp[1..], rest);
    } else {
      assert sp + rest == rest;
    }
  }

  lemma {:induction false} TokenLengthOf(w: string, rest: string)
    requires forall i :: 0 <= i < |w| ==> !IsSpace(w[i])
    requires rest == [] || IsSpace(rest[0])
    ensures TokenLength(w + rest) == |w|
    decreases |w|
  {
    if w != [] {
      assert (w + rest)[1..] == w[1..] + rest;
      TokenLengthOf(w[1..], rest);
    } else {
      assert w + rest == rest;
    }
  }

  /** Joining words with single spaces and splitting again gives the words back. */
  lemma {:induction false} SplitJoinSpaced(words: seq<string>)
    requires forall k :: 0 <= k < |words| ==> IsWord(words[k])
    ensures Split(JoinSpaced(words)) == words
    decreases |words|
  {
    if |words| == 1 {
      SplitWordFirst(words[0], []);
      assert words[0] + [] == words[0];
    } else if |words| > 1 {
      var rest := JoinSpaced(words[1..]);
      assert JoinSpaced(words) == words[0] + (" " + rest);
      SplitWordFirst(words[0], " " + rest);
      assert (" " + rest)[1..] == rest;
      SplitJoinSpaced(words[1..]);
    }
  }

  // ---------------------------------------------------------------------
  // Counting: `dict(Counter(words))`, an insertion-ordered dictionary,
  // modelled as the list of its (key, count) items in iteration order.
  // ---------------------------------------------------------------------

  type Counts = seq<(string, nat)>

  /** The count stored for `w`, or 0 when `w` is not a key. */
  function Lookup(d: Counts, w: string): nat
  {
    if d == [] then 0 else if d[0].0 == w then d[0].1 else Lookup(d[1..], w)
  }

  ghost predicate DistinctKeys(d: Counts)
  {
    forall i, j :: 0 <= i < j < |d| ==> d[i].0 != d[j].0
  }

  function SumCounts(d: Counts): nat
  {
    if d == [] then 0 else d[0].1 + SumCounts(d[1..])
  }

  /** The position of the first occurrence of `w` in `words`. */
  function FirstIndex(words: seq<string>, w: string): (k: nat)
    requires w in words
    ensures k < |words| && words[k] == w && w !in words[..k]
  {
    if words[0] == w then 0 else 1 + FirstIndex(words[1..], w)
  }

  /** One step of counting, `counts[w] = counts.get(w, 0) + 1`. */
  function Bump(d: Counts, w: string): Counts
  {
    if d == [] then [(w, 1)]
    else if d[0].0 == w then [(w, d[0].1 + 1)] + d[1..]
    else [d[0]] + Bump(d[1..], w)
  }

  /**
   * A counting step adds one to `w`'s count and leaves every other count and
   * every key's place alone; a word that is not yet a key is appended with
   * count 1.
   */
  lemma {:induction false} BumpSpec(d: Counts, w: string)
    ensures |Bump(d, w)| == |d| || Bump(d, w) == d + [(w, 1)]
    ensures forall x :: Lookup(Bump(d, w), x) == Lookup(d, x) + (if x == w then 1 else 0)
    ensures SumCounts(Bump(d, w)) == SumCounts(d) + 1
    ensures forall i :: 0 <= i < |d| ==> Bump(d, w)[i].0 == d[i].0
    ensures |Bump(d, w)| == |d| <==> exists i :: 0 <= i < |d| && d[i].0 == w
    decreases |d|
  {
    var r := Bump(d, w);
    if d != [] && d[0].0 == w {
      assert r[1..] == d[1..];
    } else if d != [] {
      var rest := Bump(d[1..], w);
      BumpSpec(d[1..], w);
      assert r[1..] == rest;
      assert (exists i :: 0 <= i < |d[1..]| && d[1..][i].0 == w) <==> (exists i :: 0 <= i < |d| && d[i].0 == w) by {
        if exists i :: 0 <= i < |d| && d[i].0 == w {
          var i :| 0 <= i < |d| && d[i].0 == w;
          assert d[1..][i - 1].0 == w;
        }
      }
      assert rest == d[1..] + [(w, 1)] ==> [d[0]] + rest == d + [(w, 1)];
    }
  }

  /** `dict(Counter(words))`: the words counted left to right. */
  function Tally(words: seq<string>): Counts
    decreases |words|
  {
    if words == [] then []
    else Bump(Tally(words[..|words| - 1]), words[|words| - 1])
  }

  /** Each word's count is its number of occurrences, and the counts add up to the number of words. */
  lemma {:induction false} TallyCounts(words: seq<string>)
    ensures forall w :: Lookup(Tally(words), w) == multiset(words)[w]
    ensures SumCounts(Tally(words)) == |words|
    decreases |words|
  {
    if words != [] {
      var init := words[..|words| - 1];
      assert words == init + [words[|words| - 1]];
      TallyCounts(init);
      BumpSpec(Tally(init), words[|words| - 1]);
    }
  }

  /** Counting one more word is one more counting step. */
  lemma TallyStep(words: seq<string>, w: string)
    ensures Tally(words + [w]) == Bump(Tally(words), w)
  {
    assert (words + [w])[..|words|] == words;
  }

  /** The items are ordered by first occurrence: each key is a word that occurs, and keys are distinct. */
  ghost predicate FirstOccurrenceOrder(d: Counts, words: seq<string>)
  {
    && (forall i :: 0 <= i < |d| ==> d[i].0 in words)
    && (forall i, j :: 0 <= i < j < |d| ==> FirstIndex(words, d[i].0) < FirstIndex(words, d[j].0))
  }

  /** The dictionary's keys are distinct and come in the order the words first occur. */
  lemma {:induction false} TallyOrder(words: seq<string>)
    ensures DistinctKeys(Tally(words))
    ensures FirstOccurrenceOrder(Tally(words), words)
    decreases |words|
  {
    if words != [] {
      var init := words[..|words| - 1];
      var w := words[|words| - 1];
      assert words == init + [w];
      TallyOrder(init);
      TallyCounts(init);
      BumpOrder(Tally(init), init, w);
    }
  }

  /** One counting step keeps the keys distinct and in first-occurrence order. */
  lemma BumpOrder(prev: Counts, init: seq<string>, w: string)
    requires DistinctKeys(prev) && FirstOccurrenceOrder(prev, init)
    requires forall x :: Lookup(prev, x) == multiset(init)[x]
    ensures DistinctKeys(Bump(prev, w))
    ensures FirstOccurrenceOrder(Bump(prev, w), init + [w])
  {
    var d := Bump(prev, w);
    BumpSpec(prev, w);
    ExtendOrder(prev, init, w);
    if |d| == |prev| {
      SameKeysOrder(prev, d, init + [w]);
    } else {
      assert w !in init by {
        if w in init {
          assert multiset(init)[w] > 0;
          LookupPositiveHasKey(prev, w);
        }
      }
      NewKeyOrder(prev, init, w);
    }
  }

  /** Adding a word at the end leaves the order of the earlier keys as it was. */
  lemma ExtendOrder(prev: Counts, init: seq<string>, w: string)
    requires FirstOccurrenceOrder(prev, init)
    ensures FirstOccurrenceOrder(prev, init + [w])
    ensures forall i :: 0 <= i < |prev| ==> FirstIndex(init + [w], prev[i].0) < |init|
  {
    forall i | 0 <= i < |prev|
      ensures prev[i].0 in init + [w] && FirstIndex(init + [w], prev[i].0) == FirstIndex(init, prev[i].0)
    {
      FirstIndexExtend(init, w, prev[i].0);
    }
  }

  lemma SameKeysOrder(prev: Counts, d: Counts, words: seq<string>)
    requires DistinctKeys(prev) && FirstOccurrenceOrder(prev, words)
    requires |d| == |prev| && forall i :: 0 <= i < |d| ==> d[i].0 == prev[i].0
    ensures DistinctKeys(d) && FirstOccurrenceOrder(d, words)
  {
  }

  lemma NewKeyOrder(prev: Counts, init: seq<string>, w: string)
    requires DistinctKeys(prev) && FirstOccurrenceOrder(prev, init + [w])
    requires forall i :: 0 <= i < |prev| ==> prev[i].0 in init
    requires forall i :: 0 <= i < |prev| ==> FirstIndex(init + [w], prev[i].0) < |init|
    requires w !in init
    ensures DistinctKeys(prev + [(w, 1)]) && FirstOccurrenceOrder(prev + [(w, 1)], init + [w])
  {
    var words := init + [w];
    var d := prev + [(w, 1)];
    assert FirstIndex(words, w) == |init| by {
      assert words[|init|] == w;
    }
    assert forall i :: 0 <= i < |prev| ==> d[i] == prev[i];
    assert d[|prev|] == (w, 1);
    forall i, j | 0 <= i < j < |d|
      ensures d[i].0 != d[j].0
    {
      if j < |prev| {
        assert d[i].0 == prev[i].0 && d[j].0 == prev[j].0;
      } else {
        assert d[i].0 == prev[i].0 && prev[i].0 in init && d[j].0 == w;
      }
    }
    NewKeyLast(prev, words, w, |init|);
  }

  lemma NewKeyLast(prev: Counts, words: seq<string>, w: string, n: nat)
    requires FirstOccurrenceOrder(prev, words) && w in words && FirstIndex(words, w) == n
    requires forall i :: 0 <= i < |prev| ==> FirstIndex(words, prev[i].0) < n
    ensures FirstOccurrenceOrder(prev + [(w, 1)], words)
  {
    var d := prev + [(w, 1)];
    assert forall i :: 0 <= i < |prev| ==> d[i] == prev[i];
    forall i, j | 0 <= i < j < |d|
      ensures FirstIndex(words, d[i].0) < FirstIndex(words, d[j].0)
    {
      if j == |prev| {
        assert d[j].0 == w;
      }
    }
  }

  /** Extending a list does not move the first occurrence of a word already in it. */
  lemma {:induction false} FirstIndexExtend(words: seq<string>, x: string, w: string)
    requires w in words
    ensures FirstIndex(words + [x], w) == FirstIndex(words, w)
    decreases |words|
  {
    if words[0] != w {
      assert (words + [x])[1..] == words[1..] + [x];
      FirstIndexExtend(words[1..], x, w);
    }
  }

  lemma {:induction false} LookupPositiveHasKey(d: Counts, w: string)
    requires Lookup(d, w) > 0
    ensures exists i :: 0 <= i < |d| && d[i].0 == w
    decreases |d|
  {
    if d[0].0 != w {
      LookupPositiveHasKey(d[1..], w);
      var i :| 0 <= i < |d[1..]| && d[1..][i].0 == w;
      assert d[i + 1].0 == w;
    }
  }

  /** `word_count(text)`. */
  function WordCount(text: string): (d: Counts)
    ensures forall w :: Lookup(d, w) == multiset(Split(Lower(text)))[w]
    ensures SumCounts(d) == |Split(Lower(text))|
  {
    TallyCounts(Split(Lower(text)));
    Tally(Split(Lower(text)))
  }

  // ---------------------------------------------------------------------
  // Ranking: `sorted(counts, key=counts.get, reverse=True)[:n]`. Python's
  // sort is stable, also with `reverse=True`, so words with equal counts
  // keep their dictionary order.
  // ---------------------------------------------------------------------

  /** How many items have key `w`. */
  function KeyCount(d: Counts, w: string): nat
  {
    if d == [] then 0 else (if d[0].0 == w then 1 else 0) + KeyCount(d[1..], w)
  }

  lemma {:induction false} KeyCountZero(d: Counts, w: string)
    ensures KeyCount(d, w) == 0 <==> forall i :: 0 <= i < |d| ==> d[i].0 != w
    decreases |d|
  {
    if d != [] {
      KeyCountZero(d[1..], w);
      assert forall i :: 1 <= i < |d| ==> d[i] == d[1..][i - 1];
    }
  }

  /** Distinct keys: no key is counted twice. */
  lemma {:induction false} DistinctKeysCountedOnce(d: Counts, w: string)
    requires DistinctKeys(d)
    ensures KeyCount(d, w) <= 1
    decreases |d|
  {
    if d != [] {
      var tail := d[1..];
      assert DistinctKeys(tail) by {
        forall i, j | 0 <= i < j < |tail| ensures tail[i].0 != tail[j].0 {
          assert d[i + 1] == tail[i] && d[j + 1] == tail[j];
        }
      }
      DistinctKeysCountedOnce(tail, w);
      if d[0].0 == w {
        KeyCountZero(tail, w);
        forall i | 0 <= i < |tail| ensures tail[i].0 != w {
          assert d[i + 1] == tail[i];
        }
      }
    }
  }

  /** No key counted twice: distinct keys. */
  lemma {:induction false} CountedOnceDistinct(d: Counts)
    requires forall w :: KeyCount(d, w) <= 1
    ensures DistinctKeys(d)
    decreases |d|
  {
    if d != [] {
      var tail := d[1..];
      assert KeyCount(d, d[0].0) <= 1;
      forall w ensures KeyCount(tail, w) <= 1 {
        assert KeyCount(d, w) <= 1;
      }
      CountedOnceDistinct(tail);
      KeyCountZero(tail, d[0].0);
      forall i, j | 0 <= i < j < |d| ensures d[i].0 != d[j].0 {
        assert d[j] == tail[j - 1];
        if i > 0 {
          assert d[i] == tail[i - 1];
        }
      }
    }
  }

  /** In a dictionary, an item's count is what looking up its key returns. */
  lemma {:induction false} LookupItem(d: Counts, i: int)
    requires DistinctKeys(d) && 0 <= i < |d|
    ensures Lookup(d, d[i].0) == d[i].1
    decreases |d|
  {
    if i > 0 {
      assert d[0].0 != d[i].0;
      assert d[1..][i - 1] == d[i];
      LookupItem(d[1..], i - 1);
    }
  }

  /** The counts never increase along `d`. */
  ghost predicate Descending(d: Counts)
  {
    forall i, j :: 0 <= i < j < |d| ==> d[i].1 >= d[j].1
  }

  /** The items of `d` whose count is `c`, in order. */
  function WithCount(d: Counts, c: nat): (r: Counts)
    ensures forall i :: 0 <= i < |r| ==> r[i].1 == c
  {
    if d == [] then [] else (if d[0].1 == c then [d[0]] else []) + WithCount(d[1..], c)
  }

  /** Insert `e` into a descending list in front of the first item whose count is not above its own. */
  function InsertByCount(e: (string, nat), s: Counts): Counts
  {
    if s == [] || s[0].1 <= e.1 then [e] + s
    else [s[0]] + InsertByCount(e, s[1..])
  }

  /** Inserting into a descending list keeps it descending and adds exactly `e`. */
  lemma {:induction false} InsertByCountSpec(e: (string, nat), s: Counts)
    requires Descending(s)
    ensures |InsertByCount(e, s)| == |s| + 1 && Descending(InsertByCount(e, s))
    ensures multiset(InsertByCount(e, s)) == multiset(s) + multiset{e}
    ensures InsertByCount(e, s)[0] == e || (s != [] && InsertByCount(e, s)[0] == s[0])
    decreases |s|
  {
    if s != [] && s[0].1 > e.1 {
      InsertByCountSpec(e, s[1..]);
      assert s == [s[0]] + s[1..];
    }
  }

  /** Inserting adds one item with `e`'s key, and puts `e` first among the items with its count. */
  lemma {:induction false} InsertByCountKeeps(e: (string, nat), s: Counts)
    requires Descending(s)
    ensures forall w :: KeyCount(InsertByCount(e, s), w) == KeyCount(s, w) + (if e.0 == w then 1 else 0)
    ensures forall c :: WithCount(InsertByCount(e, s), c) == (if e.1 == c then [e] else []) + WithCount(s, c)
    decreases |s|
  {
    var r := InsertByCount(e, s);
    if s == [] || s[0].1 <= e.1 {
      assert r[1..] == s;
      forall c ensures WithCount(r, c) == (if e.1 == c then [e] else []) + WithCount(s, c) {
        if s != [] {
          assert s[0].1 == c ==> e.1 == c || s[0].1 < e.1;
        }
      }
    } else {
      InsertByCountKeeps(e, s[1..]);
      assert r[1..] == InsertByCount(e, s[1..]);
    }
  }

  /** A stable sort by count, highest first: the same items, with counts descending. */
  function SortByCount(d: Counts): Counts
  {
    if d == [] then [] else InsertByCount(d[0], SortByCount(d[1..]))
  }

  /** The sort returns the same items with counts descending. */
  lemma {:induction false} SortByCountSpec(d: Counts)
    ensures |SortByCount(d)| == |d| && Descending(SortByCount(d))
    ensures multiset(SortByCount(d)) == multiset(d)
    decreases |d|
  {
    if d != [] {
      SortByCountSpec(d[1..]);
      InsertByCountSpec(d[0], SortByCount(d[1..]));
      assert d == [d[0]] + d[1..];
    }
  }

  /** The sort keeps each key's number of items, and the items of each count in their old order: it is stable. */
  lemma {:induction false} SortByCountStable(d: Counts)
    ensures forall w :: KeyCount(SortByCount(d), w) == KeyCount(d, w)
    ensures forall c :: WithCount(SortByCount(d), c) == WithCount(d, c)
    decreases |d|
  {
    if d != [] {
      SortByCountStable(d[1..]);
      SortByCountSpec(d[1..]);
      InsertByCountKeeps(d[0], SortByCount(d[1..]));
    }
  }

  /** Python's slice `s[:n]`: the first `n` items, or all but the last `-n` when `n` is negative. */
  function Take<T>(s: seq<T>, n: int): (r: seq<T>)
    ensures n >= 0 ==> |r| == if n < |s| then n else |s|
    ensures n < 0 ==> |r| == if |s| + n > 0 then |s| + n else 0
    ensures r == s[..|r|]
  {
    if n >= 0 then (if n < |s| then s[..n] else s)
    else if |s| + n > 0 then s[..|s| + n]
    else []
  }

  function Keys(d: Counts): (ks: seq<string>)
    ensures |ks| == |d| && forall i :: 0 <= i < |d| ==> ks[i] == d[i].0
  {
    if d == [] then [] else [d[0].0] + Keys(d[1..])
  }

  /** The words of the text, lower-cased and split: what `word_count` counts. */
  function Tokens(text: string): seq<string>
  {
    Split(Lower(text))
  }

  /** `most_common_words(text, n)`. */
  function MostCommonWords(text: string, n: int): (r: seq<string>)
    ensures n >= 0 ==> |r| == if n < |WordCount(text)| then n else |WordCount(text)|
    ensures n < 0 ==> |r| == if |WordCount(text)| + n > 0 then |WordCount(text)| + n else 0
  {
    SortByCountSpec(WordCount(text));
    Keys(Take(SortByCount(WordCount(text)), n))
  }

  /** A reordering of a dictionary of the counts of `words` is one too. */
  lemma ReorderedCounts(d: Counts, s: Counts, words: seq<string>)
    requires DistinctKeys(d) && multiset(s) == multiset(d)
    requires forall w :: KeyCount(s, w) == KeyCount(d, w)
    requires forall i :: 0 <= i < |d| ==> d[i].0 in words
    requires forall w :: Lookup(d, w) == multiset(words)[w]
    ensures DistinctKeys(s)
    ensures forall i :: 0 <= i < |s| ==> s[i].0 in words && multiset(words)[s[i].0] == s[i].1
  {
    forall w ensures KeyCount(s, w) <= 1 {
      DistinctKeysCountedOnce(d, w);
    }
    CountedOnceDistinct(s);
    forall i | 0 <= i < |s|
      ensures s[i].0 in words && multiset(words)[s[i].0] == s[i].1
    {
      var p := ItemOfReordering(d, s, i);
      LookupItem(d, p);
    }
  }

  lemma ItemOfReordering(d: Counts, s: Counts, i: int) returns (p: int)
    requires multiset(s) == multiset(d) && 0 <= i < |s|
    ensures 0 <= p < |d| && d[p] == s[i]
  {
    assert s[i] in multiset(d);
    p :| 0 <= p < |d| && d[p] == s[i];
  }

  /** Every item of the ranking is an item of the dictionary: a word of the text with its number of occurrences. */
  lemma RankingItems(text: string)
    ensures DistinctKeys(SortByCount(WordCount(text)))
    ensures forall i :: 0 <= i < |SortByCount(WordCount(text))| ==>
              SortByCount(WordCount(text))[i].0 in Tokens(text)
              && multiset(Tokens(text))[SortByCount(WordCount(text))[i].0] == SortByCount(WordCount(text))[i].1
  {
    var words := Tokens(text);
    var d := WordCount(text);
    TallyOrder(words);
    SortByCountSpec(d);
    SortByCountStable(d);
    ReorderedCounts(d, SortByCount(d), words);
  }

  /** Every word of the text is the key of some item of the ranking. */
  lemma RankingCovers(text: string, w: string)
    requires w in Tokens(text)
    ensures exists p :: 0 <= p < |SortByCount(WordCount(text))| && SortByCount(WordCount(text))[p].0 == w
  {
    var d := WordCount(text);
    assert Lookup(d, w) > 0;
    LookupPositiveHasKey(d, w);
    var q :| 0 <= q < |d| && d[q].0 == w;
    SortByCountSpec(d);
    assert d[q] in multiset(SortByCount(d));
  }

  /** The keys of the first `m` items of a descending ranking of the counts of `words` are distinct words, in descending count. */
  lemma TopOfRanking(s: Counts, words: seq<string>, m: nat)
    requires m <= |s| && Descending(s) && DistinctKeys(s)
    requires forall i :: 0 <= i < |s| ==> s[i].0 in words && multiset(words)[s[i].0] == s[i].1
    ensures forall i :: 0 <= i < m ==> Keys(s[..m])[i] in words
    ensures forall i, j :: 0 <= i < j < m ==> Keys(s[..m])[i] != Keys(s[..m])[j]
    ensures forall i, j :: 0 <= i < j < m ==>
              multiset(words)[Keys(s[..m])[i]] >= multiset(words)[Keys(s[..m])[j]]
  {
  }

  /** No word left out of the first `m` items of such a ranking occurs more often than one of them. */
  lemma TopOfRankingMaximal(s: Counts, words: seq<string>, m: nat)
    requires m <= |s| && Descending(s)
    requires forall i :: 0 <= i < |s| ==> multiset(words)[s[i].0] == s[i].1
    requires forall w :: w in words ==> exists p :: 0 <= p < |s| && s[p].0 == w
    ensures forall w, i :: w in words && w !in Keys(s[..m]) && 0 <= i < m ==>
              multiset(words)[Keys(s[..m])[i]] >= multiset(words)[w]
  {
    var r := Keys(s[..m]);
    forall w, i | w in words && w !in r && 0 <= i < m
      ensures multiset(words)[r[i]] >= multiset(words)[w]
    {
      var p :| 0 <= p < |s| && s[p].0 == w;
      NotTakenLater(s, m, p);
    }
  }

  /** A key left out of the first `m` items sits at or after position `m`. */
  lemma NotTakenLater(s: Counts, m: nat, p: int)
    requires m <= |s| && 0 <= p < |s| && s[p].0 !in Keys(s[..m])
    ensures p >= m
  {
  }

  /** Every word of the text is the key of some item of its ranking. */
  lemma RankingCoversAll(text: string)
    ensures forall w :: w in Tokens(text) ==>
              exists p :: 0 <= p < |SortByCount(WordCount(text))| && SortByCount(WordCount(text))[p].0 == w
  {
    forall w | w in Tokens(text)
      ensures exists p :: 0 <= p < |SortByCount(WordCount(text))| && SortByCount(WordCount(text))[p].0 == w
    {
      RankingCovers(text, w);
    }
  }

  /**
   * `most_common_words` returns distinct words of the text, most frequent
   * first, and no word it leaves out occurs more often than one it returns.
   */
  lemma MostCommonAreMostFrequent(text: string, n: int)
    ensures forall i :: 0 <= i < |MostCommonWords(text, n)| ==>
              MostCommonWords(text, n)[i] in Tokens(text)
    ensures forall i, j :: 0 <= i < j < |MostCommonWords(text, n)| ==>
              MostCommonWords(text, n)[i] != MostCommonWords(text, n)[j]
    ensures forall i, j :: 0 <= i < j < |MostCommonWords(text, n)| ==>
              multiset(Tokens(text))[MostCommonWords(text, n)[i]]
                >= multiset(Tokens(text))[MostCommonWords(text, n)[j]]
    ensures forall w, i :: w in Tokens(text) && w !in MostCommonWords(text, n) && 0 <= i < |MostCommonWords(text, n)| ==>
              multiset(Tokens(text))[MostCommonWords(text, n)[i]] >= multiset(Tokens(text))[w]
  {
    var s := SortByCount(WordCount(text));
    SortByCountSpec(WordCount(text));
    RankingItems(text);
    RankingCoversAll(text);
    var t := Take(s, n);
    TopOfRanking(s, Tokens(text), |t|);
    TopOfRankingMaximal(s, Tokens(text), |t|);
    assert MostCommonWords(text, n) == Keys(s[..|t|]);
  }

  /** The words of `ws` that occur exactly `c` times in `words`, in order. */
  function OfCount(ws: seq<string>, words: seq<string>, c: nat): seq<string>
  {
    if ws == [] then [] else (if multiset(words)[ws[0]] == c then [ws[0]] else []) + OfCount(ws[1..], words, c)
  }

  /** Filtering keys by how often they occur is filtering the items by their counts, when those are the counts. */
  lemma {:induction false} OfCountKeys(t: Counts, words: seq<string>, c: nat)
    requires forall i :: 0 <= i < |t| ==> multiset(words)[t[i].0] == t[i].1
    ensures OfCount(Keys(t), words, c) == Keys(WithCount(t, c))
    decreases |t|
  {
    if t != [] {
      assert Keys(t)[1..] == Keys(t[1..]);
      OfCountKeys(t[1..], words, c);
      assert Keys(WithCount(t, c)) == (if t[0].1 == c then [t[0].0] else []) + Keys(WithCount(t[1..], c));
    }
  }

  lemma {:induction false} WithCountPrefix(s: Counts, m: nat, c: nat)
    requires m <= |s|
    ensures WithCount(s[..m], c) <= WithCount(s, c)
    decreases m
  {
    if m > 0 {
      assert s[..m][1..] == s[1..][..m - 1];
      WithCountPrefix(s[1..], m - 1, c);
    }
  }

  /** A stable reordering's first `m` items hold, for each count, a prefix of the original's keys with that count. */
  lemma StablePrefix(d: Counts, s: Counts, words: seq<string>, m: nat, c: nat)
    requires m <= |s| && WithCount(s, c) == WithCount(d, c)
    requires forall i :: 0 <= i < |d| ==> multiset(words)[d[i].0] == d[i].1
    requires forall i :: 0 <= i < |s| ==> multiset(words)[s[i].0] == s[i].1
    ensures OfCount(Keys(s[..m]), words, c) <= OfCount(Keys(d), words, c)
  {
    var t := s[..m];
    assert forall i :: 0 <= i < |t| ==> t[i] == s[i];
    OfCountKeys(t, words, c);
    OfCountKeys(d, words, c);
    WithCountPrefix(s, m, c);
    KeysPrefix(WithCount(t, c), WithCount(s, c));
  }

  lemma KeysPrefix(a: Counts, b: Counts)
    requires a <= b
    ensures Keys(a) <= Keys(b)
  {
    assert Keys(a) == Keys(b)[..|a|];
  }

  /** Every item of the dictionary pairs a word with its number of occurrences. */
  lemma WordCountItems(text: string)
    ensures forall i :: 0 <= i < |WordCount(text)| ==> multiset(Tokens(text))[WordCount(text)[i].0] == WordCount(text)[i].1
  {
    var d := WordCount(text);
    TallyOrder(Tokens(text));
    forall i | 0 <= i < |d| ensures multiset(Tokens(text))[d[i].0] == d[i].1 {
      LookupItem(d, i);
    }
  }

  /**
   * Ties keep dictionary order: for every count `c`, the words
   * `most_common_words` returns that occur `c` times are the first of the
   * dictionary's words that occur `c` times, in the dictionary's order,
   * which is the order of first occurrence in the text (`TallyOrder`).
   */
  lemma MostCommonTiesInDictionaryOrder(text: string, n: int, c: nat)
    ensures OfCount(MostCommonWords(text, n), Tokens(text), c) <= OfCount(Keys(WordCount(text)), Tokens(text), c)
  {
    var d := WordCount(text);
    var s := SortByCount(d);
    RankingItems(text);
    SortByCountStable(d);
    WordCountItems(text);
    var m := |Take(s, n)|;
    assert MostCommonWords(text, n) == Keys(s[..m]);
    StablePrefix(d, s, Tokens(text), m, c);
  }
}
