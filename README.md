# Prime workers, equation front end and demo utilities in Dafny

This project models three Python scripts and proves properties of them:

- **`demo1.py`**: its deterministic utilities.
  - a singly linked list with `append` and `to_list`
  - `quicksort` with a randomly drawn pivot
  - the iterative `fibonacci`
  - trial-division `is_prime` and `primes_up_to`
  - `word_count` and `most_common_words` over a text
  - the values its `main` prints for the Fibonacci, prime and word demos
- **`Resolution_final.py`**: the string front end of `parse_equation`.
  - `insert_multiplication_signs`, the three regular-expression substitutions that write implicit products out with `*`
  - the normalisation of `²`, spaces and `**`
  - the search for the comparator
  - the split into two sides
  - the construction of the expression `(left)-(right)`
  - the choice of the variable
- **`NB_premier_threading.py`**:
  - `PrimeFinder.is_prime`, which only tries odd divisors
  - a worker's `run` loop over a FIFO task queue with `task_done` acknowledgements
  - `main`, which fills the queue with the numbers and one `None` per worker, runs the workers, collects the results, sorts them and prints one line per number

Modules, one per file:

- `Primality`: divisibility, primality and the exact integer square root both primality tests rest on.
- `Primes`: `is_prime` and `primes_up_to` of `demo1.py`.
- `Fibonacci`, `LinkedLists`, `QuickSort` and `Words`: the other `demo1.py` utilities.
- `Demo`: `main`'s printed values.
- `Multiplication`: `insert_multiplication_signs`.
- `Strings`: Python's `str.replace`, `str.split` and character selection.
- `Equation`: `parse_equation`.
- `Decimal`: `str(n)` of an integer.
- `PrimeFinding`: the thread script.
- `Wrappers`: `Option` and `Result`.

State that the source changes in place stays in place:

- The linked list is a class of heap nodes.
- `queue.Queue` is a class whose item sequence and unfinished-task count are updated by `Put`, `Get` and `TaskDone`.
- `PrimeFinder` is a class whose `Run` loop updates the two queues.

Pure computations are functions, and each is paired with lemmas about it. Loops are methods proved against those functions.

The thread script's numbers are drawn at random, so they can repeat. The report therefore keeps every number with its multiplicity, and results are sorted as `(n, is_prime)` tuples, as the code does. Treating the results as a set of distinct values, sorted by value alone, would not match the code.

## Model

| member | source | states |
|---|---|---|
| `Primality.Isqrt` | demo1.py:73 | the root `s` used for `int(math.sqrt(n))` satisfies `s*s <= n < (s+1)*(s+1)` |
| `Primality.IsqrtBelow` | demo1.py:73-75 | for `n >= 2` the root is below `n`, so a divisor found up to it is a proper divisor |
| `Primality.SmallFactor` | demo1.py:73-76 | a number with a proper divisor has one between 2 and its integer square root |
| `Primality.OddDivisor` | NB_premier_threading.py:28-30 | every divisor of an odd number is odd |
| `Primes.NoDivisorIn` | demo1.py:73-75 | true exactly when no `i` in `[lo, hi]` divides `n` |
| `Primes.TrialDivisionDecides` | demo1.py:70-76 | for `n >= 2`, having no divisor in `[2, isqrt(n)]` is equivalent to primality |
| `Primes.TrialPrime` | demo1.py:70-76 | the value `is_prime` computes is true exactly for primes (false below 2) |
| `Primes.IsPrime` | demo1.py:70-76 | the early-exit loop returns true exactly for primes, equal to `TrialPrime` |
| `Primes.PrimesIn` | demo1.py:79 | the comprehension over `range(lo, hi+1)` is strictly ascending, within bounds, and holds exactly the primes in range |
| `Primes.PrimesUpTo` | demo1.py:78-79 | `primes_up_to(n)` is strictly ascending and holds exactly the primes in `[2, n]` |
| `Primes.AscendingUnique` | demo1.py:78-79 | two strictly ascending lists with the same elements are equal, so the list of primes is unique |
| `Fibonacci.Fibonacci` | demo1.py:62-68 | returns `n` for `n <= 1` (negative `n` included) and the `n`-th Fibonacci number for every `n >= 0` |
| `LinkedLists.Node.constructor` | demo1.py:24-27 | a node holds its value and links nowhere |
| `LinkedLists.LinkedList.constructor` | demo1.py:30-31 | a new list has no head and empty contents |
| `LinkedLists.LinkedList.Append` | demo1.py:33-40 | the value is added at the end, the contents are otherwise unchanged, and the list stays well formed |
| `LinkedLists.LinkedList.ToList` | demo1.py:42-48 | the walk from the head returns exactly the contents, in order |
| `LinkedLists.LinkedListDemo` | demo1.py:150-153 | appending values one by one to a new list and reading it back gives exactly those values |
| `QuickSort.Part` | demo1.py:57-59 | each comprehension keeps exactly the elements on its side of the pivot, with their multiplicities |
| `QuickSort.PartitionCounts` | demo1.py:57-59 | the three parts together hold every element exactly once |
| `QuickSort.SameElementsSameSide` | demo1.py:60 | a sorted part holds the same elements as the part, so it lies on the same side of the pivot |
| `QuickSort.SortedAround` | demo1.py:60 | sorted lower part, pivot copies and sorted upper part concatenate to a sorted list |
| `QuickSort.QuickSort` | demo1.py:53-60 | for any pivot draw, the result is sorted and a permutation of the input, and short lists come back as they are |
| `QuickSort.SortedUnique` | demo1.py:53-60 | two sorted permutations of the same elements are equal |
| `QuickSort.PivotIrrelevant` | demo1.py:56 | the result does not depend on the randomly drawn pivots |
| `Words.Lower` | demo1.py:111 | `lower()` maps each capital `A`-`Z` to its lower-case letter (code point plus 32) and keeps every other character; hence the length is kept, no capital remains and whitespace stays in place |
| `Words.LowerOfLower` | demo1.py:111 | text without capitals is its own lower case |
| `Words.TokenLength` | demo1.py:111 | the first token ends at the first whitespace, or at the end of the text |
| `Words.Split` | demo1.py:111 | `split()` yields only non-empty tokens without whitespace |
| `Words.SplitWordFirst` | demo1.py:111 | a token followed by the end of the text or by whitespace is the first piece of the split, and the split goes on with what follows |
| `Words.SplitLeadingSpace` | demo1.py:111 | whitespace in front of the text adds no token; with `SplitWordFirst` and the empty text splitting to no token, this fixes `split()` as the maximal non-whitespace runs |
| `Words.SplitKeepsText` | demo1.py:111 | the tokens, concatenated, are exactly the non-whitespace characters of the text |
| `Words.SplitJoinSpaced` | demo1.py:111 | splitting words joined by single spaces gives the words back |
| `Words.Bump` | demo1.py:112 | one `Counter` step on the item list; what it does is stated by `BumpSpec` |
| `Words.Tally` | demo1.py:112 | `dict(Counter(words))` as counting steps left to right; stated by `TallyCounts` and `TallyOrder` |
| `Words.BumpSpec` | demo1.py:112 | one counting step adds 1 to the count of its word, appends a new key at the end and keeps the order of existing keys |
| `Words.TallyCounts` | demo1.py:112 | each word's count equals its number of occurrences, and the counts sum to the number of words |
| `Words.TallyOrder` | demo1.py:112 | the dictionary's keys are distinct and ordered by first occurrence |
| `Words.WordCount` | demo1.py:110-112 | `word_count(text)` maps each token of the lower-cased text to its number of occurrences |
| `Words.WordCountItems` | demo1.py:110-112 | every dictionary item pairs a token with its number of occurrences |
| `Words.InsertByCount` | demo1.py:116 | one insertion step of the descending sort; stated by `InsertByCountSpec` and `InsertByCountKeeps` |
| `Words.SortByCount` | demo1.py:116 | `sorted(counts, key=counts.get, reverse=True)` on the items; stated by `SortByCountSpec` and `SortByCountStable` |
| `Words.InsertByCountSpec` | demo1.py:116 | inserting into a descending list keeps it descending and adds exactly that item |
| `Words.SortByCountSpec` | demo1.py:116 | `sorted(counts, key=counts.get, reverse=True)` returns the same items with counts descending |
| `Words.SortByCountStable` | demo1.py:116 | the sort is stable: items with equal counts keep their dictionary order |
| `Words.Take` | demo1.py:116 | the slice `[:n]` is the first `n` items, or all but the last `-n` when `n` is negative |
| `Words.MostCommonWords` | demo1.py:114-116 | the result length is `min(n, number of distinct words)`, with Python's negative-`n` slice rule |
| `Words.RankingItems` | demo1.py:115-116 | every ranked item is a token of the text with its number of occurrences, and the keys are distinct |
| `Words.RankingCoversAll` | demo1.py:115-116 | every token of the text is ranked |
| `Words.MostCommonAreMostFrequent` | demo1.py:114-116 | the chosen words occur in the text, are distinct, come in descending frequency, and none left out occurs more often than a chosen one |
| `Words.MostCommonTiesInDictionaryOrder` | demo1.py:114-116 | among words with the same count, the chosen ones are the first of them in dictionary (first-occurrence) order |
| `Demo.FirstTenFibonacci` | demo1.py:161-163 | the Fibonacci demo prints 0, 1, 1, 2, 3, 5, 8, 13, 21, 34 |
| `Demo.PrimeUpToThirty` | demo1.py:166 | the primes between 2 and 30 are 2, 3, 5, 7, 11, 13, 17, 19, 23 and 29 |
| `Demo.PrimesUpToThirty` | demo1.py:165-166 | `primes_up_to(30)` is the list `[2, 3, 5, 7, 11, 13, 17, 19, 23, 29]` |
| `Demo.SampleTokens` | demo1.py:177-178 | the sample sentence lower-cases and splits into its eight words |
| `Demo.SampleTally` | demo1.py:178 | counting the sample words gives hello 2, world 1, python 2, code 3, in that order |
| `Demo.SampleWordCount` | demo1.py:177-178 | `word_count` of the sample is `{'hello': 2, 'world': 1, 'python': 2, 'code': 3}` |
| `Demo.SampleRanking` | demo1.py:116 | the stable descending sort of the sample counts is code, hello, python, world |
| `Demo.SampleMostCommonWords` | demo1.py:179 | `most_common_words` of the sample is `['code', 'hello', 'python', 'world']` |
| `Multiplication.Sub` | Resolution_final.py:6-10 | one `re.sub` pass of a rule, left to right over non-overlapping matches; stated by `SubInsertsStars`, `SubRemovesMatches`, `SubKeepsNoMatch` and `SubFixedExactly` |
| `Multiplication.InsertMultiplicationSigns` | Resolution_final.py:4-11 | the three passes in the source's order; stated by the `InsertMultiplicationSigns...` lemmas below |
| `Multiplication.SubInsertsStars` | Resolution_final.py:6-10 | each substitution only inserts `*` characters |
| `Multiplication.InsertMultiplicationSignsInsertsStars` | Resolution_final.py:4-11 | the output is the input with zero or more `*` inserted, and nothing else changed |
| `Multiplication.SubShape` | Resolution_final.py:6-10 | a substitution keeps the first character and never shortens the text |
| `Multiplication.SubRemovesMatches` | Resolution_final.py:6-10 | after a substitution no match of its pattern is left |
| `Multiplication.SubKeepsNoMatch` | Resolution_final.py:6-10 | a substitution never creates a match of another pattern |
| `Multiplication.InsertMultiplicationSignsExplicit` | Resolution_final.py:4-11 | afterwards no digit-letter, letter-`(` or `)`-letter pair is left |
| `Multiplication.SubFixedExactly` | Resolution_final.py:6-10 | a substitution leaves the text unchanged exactly when its pattern does not occur |
| `Multiplication.InsertMultiplicationSignsFixedExactly` | Resolution_final.py:4-11 | the function leaves a text unchanged exactly when none of the three patterns occurs |
| `Multiplication.InsertMultiplicationSignsIdempotent` | Resolution_final.py:4-11 | applying it twice is the same as applying it once |
| `Multiplication.NoLetterUnchanged` | Resolution_final.py:4-11 | text without letters comes back unchanged |
| `Multiplication.ParenthesesNotSeparated` | Resolution_final.py:9-10 | `)(` is left as it is, because the third pattern needs a letter after `)` |
| `Strings.ReplaceAll` | Resolution_final.py:15-17 | `str.replace`, left to right over non-overlapping occurrences; stated by `ReplaceAllKeeps`, `ReplaceCharGone`, `ReplaceAllFree` and `ReplaceAllAbsent` |
| `Strings.Find` | Resolution_final.py:23 | the search for the next separator inside `str.split`; stated by `FindFirst` |
| `Strings.FilterAppend` | Resolution_final.py:28 | selecting characters distributes over concatenation |
| `Strings.FilterEmpty` | Resolution_final.py:28-29 | nothing is selected exactly when no character qualifies |
| `Strings.ReplaceAllKeeps` | Resolution_final.py:15-17 | replacing text that selects nothing by text that selects nothing keeps the selection |
| `Strings.ReplaceCharGone` | Resolution_final.py:15-17 | a replaced character is gone unless the replacement contains it |
| `Strings.ReplaceAllFree` | Resolution_final.py:15-17 | a character absent from the text and the replacement is absent from the result |
| `Strings.ReplaceAllAbsent` | Resolution_final.py:17 | `replace` on text without the pattern returns the text unchanged |
| `Strings.FindFirst` | Resolution_final.py:23 | `find` returns the first occurrence from the start index, and nothing exactly when there is none |
| `Strings.SplitOn` | Resolution_final.py:23 | `split(sep)` always yields at least one piece |
| `Strings.SplitJoin` | Resolution_final.py:23 | the pieces joined with the separator give the text back |
| `Strings.SplitPiecesFree` | Resolution_final.py:23 | no piece contains the separator |
| `Strings.SplitSingle` | Resolution_final.py:23 | there is one piece exactly when the separator does not occur |
| `Strings.SplitTwo` | Resolution_final.py:23 | there are exactly two pieces exactly when no occurrence starts after the first one ends |
| `Equation.Normalize` | Resolution_final.py:15-17 | the three replacements in the source's order; stated by `NormalizeClean`, `NormalizeKeeps` and `NormalizeKeepsComparatorsAndLetters` |
| `Equation.DoubleStarGone` | Resolution_final.py:17 | after `replace('**', '^')` no two adjacent `*` remain |
| `Equation.PowerRoundTrip` | Resolution_final.py:17-26 | on text without `^`, `replace('^', '**')` undoes `replace('**', '^')` |
| `Equation.NormalizeKeeps` | Resolution_final.py:15-17 | normalisation keeps every selection that picks none of `²`, `^`, `2`, space and `*` |
| `Equation.NormalizeClean` | Resolution_final.py:15-17 | the normalised equation has no `²`, no space and no `**` |
| `Equation.NormalizeKeepsComparatorsAndLetters` | Resolution_final.py:15-17 | normalisation neither adds nor removes `<`, `>`, `=` or a letter |
| `Equation.Text` | Resolution_final.py:22 | each comparator's text is non-empty and made of `<`, `>` and `=` |
| `Equation.ComparatorAtLongest` | Resolution_final.py:19 | the alternation matches at a position exactly when a comparator character is there, and takes the longest comparator |
| `Equation.Search` | Resolution_final.py:19 | the scan of `re.search` from a position; stated by `SearchFirst` |
| `Equation.FindComparator` | Resolution_final.py:19 | `re.search` for `<=`, `>=`, `=`, `<` or `>`, tried in that order; stated by `FindComparatorLeftmostLongest` |
| `Equation.SearchFirst` | Resolution_final.py:19 | `re.search` from a position finds the first comparator character at or after it |
| `Equation.FindComparatorLeftmostLongest` | Resolution_final.py:19-22 | no match exactly when there is no `<`, `>` or `=`; otherwise the match is the leftmost occurrence of `comp`, and the longest one there |
| `Equation.Difference` | Resolution_final.py:24 | the f-string `({left})-({right})`; stated by `DifferenceKeeps` |
| `Equation.Build` | Resolution_final.py:24-26 | the expression: difference, explicit products, `^` back to `**`; stated by `BuildLetters` and `BuildExplicit` |
| `Equation.DifferenceKeeps` | Resolution_final.py:24 | `(left)-(right)` has the selected characters of the two sides, in order |
| `Equation.InsertKeeps` | Resolution_final.py:25 | inserting `*` keeps every selection that does not pick `*` |
| `Equation.BuildLetters` | Resolution_final.py:24-26 | the expression's letters are those of the left side followed by those of the right side |
| `Equation.CaretKeepsNoMatch` | Resolution_final.py:26 | writing `^` as `**` creates no implicit-product pattern |
| `Equation.BuildExplicit` | Resolution_final.py:24-26 | the expression has every product explicit and no `^` |
| `Equation.SmallestLetter` | Resolution_final.py:28-29 | the first of the sorted distinct letters, or none; stated by `SmallestLetterIsLeast` and `SmallestLetterOfLetters` |
| `Equation.SmallestLetterIsLeast` | Resolution_final.py:28-29 | `sorted(set(findall('[a-zA-Z]', s)))[0]` is a letter of `s` no greater than any other, and there is none exactly when `s` has no letter |
| `Equation.SmallestLetterOfLetters` | Resolution_final.py:28 | only the letters of the text decide the variable |
| `Equation.ParseEquation` | Resolution_final.py:13-30 | the string part of `parse_equation`, with its three errors as `Err` values; stated by the `Parse...` lemmas below |
| `Equation.ParseNoComparator` | Resolution_final.py:19-21 | the comparator error is raised exactly when the equation has no `<`, `>` or `=` |
| `Equation.ParseUnpack` | Resolution_final.py:23 | the unpacking error is raised exactly when `comp` occurs again after its first occurrence |
| `Equation.JoinTwo` | Resolution_final.py:23 | two pieces joined by the separator are the first piece, the separator and the second |
| `Equation.ParseSides` | Resolution_final.py:23-24 | on success, the normalised equation is `left + comp + right` with `comp` in neither side, and the expression is built from the two sides |
| `Equation.SidesLetters` | Resolution_final.py:23-28 | the expression's letters are the letters of the normalised equation |
| `Equation.ParseExpression` | Resolution_final.py:24-26 | on success, the expression has explicit products, no `^`, and exactly the letters of the equation in order |
| `Equation.ParseVariable` | Resolution_final.py:28-30 | on success, the variable is the smallest letter of the equation; past the comparator and unpacking checks, the variable error is raised exactly when the equation has no letter |
| `Decimal.NatToString` | NB_premier_threading.py:61 | the decimal digits of a natural number; stated by `NatToStringDigits` |
| `Decimal.IntToString` | NB_premier_threading.py:61 | `str(n)` in the f-string; stated by `IntToStringRoundTrip` |
| `Decimal.DigitChar` | NB_premier_threading.py:61 | each digit is written as a decimal digit character |
| `Decimal.NatToStringDigits` | NB_premier_threading.py:61 | `str(n)` of a natural number is a non-empty run of digits that reads back as `n` |
| `Decimal.IntToStringRoundTrip` | NB_premier_threading.py:61 | `str(n)` has no space and reads back as `n` |
| `PrimeFinding.NoOddDivisorInMeaning` | NB_premier_threading.py:30-32 | the odd-stepped scan finds no divisor exactly when no odd number in range divides `n` |
| `PrimeFinding.OddTrialDecides` | NB_premier_threading.py:28-33 | for odd `n >= 3`, trying only odd candidates decides the same as trying all of them |
| `PrimeFinding.OddTrialPrime` | NB_premier_threading.py:22-33 | the value the odd-only test computes is true exactly for primes, and agrees with `demo1.py`'s `is_prime` |
| `PrimeFinding.IsPrime` | NB_premier_threading.py:22-33 | the early-return loop over `range(3, isqrt(n)+1, 2)` returns true exactly for primes |
| `PrimeFinding.Queue.constructor` | NB_premier_threading.py:39-40 | a new queue is empty with no unfinished tasks |
| `PrimeFinding.Queue.Put` | NB_premier_threading.py:48 | the item is appended at the back and one more task is unfinished |
| `PrimeFinding.Queue.Get` | NB_premier_threading.py:14 | returns and removes the front item, and nothing on an empty queue; the unfinished count is unchanged |
| `PrimeFinding.Queue.TaskDone` | NB_premier_threading.py:16-20 | one fewer unfinished task, and failure exactly when none was unfinished; the items are unchanged |
| `PrimeFinding.Outcomes` | NB_premier_threading.py:13-19 | what one worker puts on the result queue; stated by `WorkerDrain` and used in `PrimeFinder.Run` |
| `PrimeFinding.Verdicts` | NB_premier_threading.py:18-19 | each number paired with `is_prime(n)`, in order; stated by `WorkerDrain` |
| `PrimeFinding.Taken` | NB_premier_threading.py:13-17 | a worker takes at most the items in the queue |
| `PrimeFinding.WorkerDrain` | NB_premier_threading.py:12-20 | draining the numbers followed by a `None` yields one correct verdict per number, in order, takes the numbers plus the `None`, and leaves the rest of the queue |
| `PrimeFinding.PrimeFinder.constructor` | NB_premier_threading.py:7-10 | a worker holds the two queues it was given |
| `PrimeFinding.PrimeFinder.Run` | NB_premier_threading.py:12-20 | takes items up to and including the first `None`, acknowledges each, and appends one verdict per number to the result queue |
| `PrimeFinding.InsertPair` | NB_premier_threading.py:59 | one insertion step of `results.sort()`; stated by `InsertPairSorted`, `InsertPairCount` and `InsertPairBelow` |
| `PrimeFinding.SortPairs` | NB_premier_threading.py:59 | `results.sort()` in tuple order; stated by `SortPairsSpec` |
| `PrimeFinding.SortedCons` | NB_premier_threading.py:59 | a list with an item in front is sorted exactly when that item is below the rest and the rest is sorted |
| `PrimeFinding.InsertPairBelow` | NB_premier_threading.py:59 | inserting an item above a lower bound keeps that bound |
| `PrimeFinding.InsertPairSorted` | NB_premier_threading.py:59 | inserting into a sorted list keeps it sorted in tuple order |
| `PrimeFinding.InsertPairCount` | NB_premier_threading.py:59 | inserting adds exactly that item |
| `PrimeFinding.SortPairsSpec` | NB_premier_threading.py:59 | `results.sort()` returns a permutation sorted in Python's tuple order |
| `PrimeFinding.Line` | NB_premier_threading.py:61 | `f"{n} is {'prime' if is_prime else 'not prime'}"`; stated by `LineDetermines` |
| `PrimeFinding.Lines` | NB_premier_threading.py:60-61 | one line per result, in order; stated by `ReportContents` |
| `PrimeFinding.FirstSpace` | NB_premier_threading.py:61 | text before the first space determines both parts of a line |
| `PrimeFinding.LineDetermines` | NB_premier_threading.py:60-61 | a printed line determines its number and verdict |
| `PrimeFinding.ReportContents` | NB_premier_threading.py:59-61 | the report has one line per number, sorted, the numbers being those of the input with their multiplicities, each line saying whether its number is prime |
| `PrimeFinding.Fill` | NB_premier_threading.py:47-51 | the queue gains every number in order, then one `None` per worker, and as many unfinished tasks |
| `PrimeFinding.RunWorkers` | NB_premier_threading.py:43-53 | the workers leave the task queue empty with every task acknowledged (so `join` returns), and the result queue gains one verdict per number |
| `PrimeFinding.Collect` | NB_premier_threading.py:55-57 | draining the result queue returns all its items in order and leaves it empty |
| `PrimeFinding.Report` | NB_premier_threading.py:35-61 | `main`'s printed lines are the sorted verdicts of the numbers, formatted one per line |

## Left out

- `Lorenz_attractor_system.py` is not part of this model. It is floating-point numerical integration and plotting.
- From `demo1.py`, these are not modelled:
  - `random_string`, `timer`, `worker`, `run_threads`, file writing and reading, `repeat`/`hello`, the `Animal` classes
  - the printing itself
  
  They are randomness, clocks, threads, file I/O and output, with no logic to verify. The printed values of the deterministic demos are stated by the `Demo` lemmas.
- `LinkedLists.LinkedListDemo`: the five random strings are a parameter `values`.
- `QuickSort.QuickSort`: `random.randint` is a parameter `pick` that may choose any valid index. The `@timer` wrapper is not modelled.
- `PrimeFinding.Report`: the twenty random numbers from `random.randint(10**5, 10**6)` are a parameter `numbers`, of any length. The printing is modelled by the list of lines.
- `Primality.Isqrt`: `int(math.sqrt(n))` and `int(n ** 0.5)` are taken to be the exact integer square root. Floating-point rounding for very large `n` is not modelled.
- `Decimal.IsDigit`: the `\d` of the first substitution in `insert_multiplication_signs` matches every Unicode decimal digit; the model accepts only `0`-`9`.
- `Words.Lower`: lower-casing and whitespace are the ASCII ones. Unicode case mapping and Unicode whitespace are not modelled.
- `Demo.SampleTokens`: the sample sentence is stated as the eight sample words joined by single spaces, which is exactly the literal in `main`.
- `Equation.ParseEquation`: it returns the expression text, the variable and the comparator. The `sympy` calls that turn them into a polynomial (`sp.symbols`, `sp.sympify`, `sp.expand`) are not modelled, and neither is `solve_any_degree`.
  - The two `ValueError` messages and the unpacking `ValueError` are the constructors of `Error`.
- `Decimal.IntToString`: only `str` of an integer, the one conversion the f-string line uses, is modelled.
- `PrimeFinding.RunWorkers`: the four threads run one after the other. The first drains every number and one `None`, and each other worker then takes one `None`. Other interleavings, thread start and the blocking of `join` are not modelled.
- `PrimeFinding.Queue.Get`: a `get` on an empty queue returns `None` instead of blocking.
- `PrimeFinding.SortPairsSpec`: Python's sort is modelled by an insertion sort. Equal tuples cannot be told apart, so stability does not matter.
