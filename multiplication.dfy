/**
 * Resolution_final.py's `insert_multiplication_signs(expr)`: three regular
 * expression substitutions, applied one after the other, that write the
 * implicit products of school algebra out with `*`:
 *
 *   - `(\d)([a-zA-Z])` becomes `\1*\2`: a digit followed by a letter (`2x`);
 *   - `([a-zA-Z])\(` becomes `\1*(`: a letter followed by `(` (`x(x+1)`);
 *   - `\)([a-zA-Z])` becomes `)*\1`: `)` followed by a letter (`(x+1)x`).
 *
 * `re.sub` scans left to right and replaces non-overlapping matches: after a
 * match it resumes behind the two characters it consumed. Digits and
 * letters are the ASCII ones.
 */
module Multiplication {
  import opened Decimal

  predicate IsLetter(c: char)
  {
    'a' <= c <= 'z' || 'A' <= c <= 'Z'
  }

  /** The three substitutions, in the order they are applied. */
  datatype Rule = DigitLetter | LetterParen | ParenLetter

  /** The first character of a match of `rule`. */
  predicate First(rule: Rule, c: char)
  {
    match rule
    case DigitLetter => IsDigit(c)
    case LetterParen => IsLetter(c)
    case ParenLetter => c == ')'
  }

  /** The second character of a match of `rule`. */
  predicate Second(rule: Rule, c: char)
  {
    match rule
    case DigitLetter => IsLetter(c)
    case LetterParen => c == '('
    case ParenLetter => IsLetter(c)
  }

  /** `re.sub` of one rule: each match `ab`, taken left to right without overlap, becomes `a*b`. */
  function Sub(rule: Rule, s: string): string
    decreases |s|
  {
    if s == [] then []
    else if |s| >= 2 && First(rule, s[0]) && Second(rule, s[1]) then [s[0], '*', s[1]] + Sub(rule, s[2..])
    else [s[0]] + Sub(rule, s[1..])
  }

  /** `insert_multiplication_signs(expr)`. */
  function InsertMultiplicationSigns(s: string): string
  {
    Sub(ParenLetter, Sub(LetterParen, Sub(DigitLetter, s)))
  }

  // ---------------------------------------------------------------------
  // Only `*` is ever added
  // ---------------------------------------------------------------------

  /** `r` is `s` with zero or more `*` inserted: deleting those `*` from `r` gives `s` back. */
  predicate StarsInserted(s: string, r: string)
    decreases |r|
  {
    if r == [] then s == []
    else (s != [] && r[0] == s[0] && StarsInserted(s[1..], r[1..]))
         || (r[0] == '*' && StarsInserted(s, r[1..]))
  }

  /** The characters of `s` other than `*`, in order. */
  function DropStars(s: string): string
  {
    if s == [] then [] else (if s[0] == '*' then [] else [s[0]]) + DropStars(s[1..])
  }

  /** Inserting stars changes nothing but the stars. */
  lemma {:induction false} StarsInsertedKeepsOthers(s: string, r: string)
    requires StarsInserted(s, r)
    ensures DropStars(r) == DropStars(s)
    ensures |r| >= |s|
    decreases |r|
  {
    if r != [] {
      if s != [] && r[0] == s[0] && StarsInserted(s[1..], r[1..]) {
        StarsInsertedKeepsOthers(s[1..], r[1..]);
      } else {
        StarsInsertedKeepsOthers(s, r[1..]);
      }
    }
  }

  lemma {:induction false} StarsInsertedTransitive(a: string, b: string, c: string)
    requires StarsInserted(a, b) && StarsInserted(b, c)
    ensures StarsInserted(a, c)
    decreases |c|
  {
    if c != [] {
      if b != [] && c[0] == b[0] && StarsInserted(b[1..], c[1..]) {
        if a != [] && b[0] == a[0] && StarsInserted(a[1..], b[1..]) {
          StarsInsertedTransitive(a[1..], b[1..], c[1..]);
        } else {
          StarsInsertedTransitive(a, b[1..], c[1..]);
        }
      } else {
        StarsInsertedTransitive(a, b, c[1..]);
      }
    }
  }

  /** One substitution only inserts `*`. */
  lemma {:induction false} SubInsertsStars(rule: Rule, s: string)
    ensures StarsInserted(s, Sub(rule, s))
    decreases |s|
  {
    var r := Sub(rule, s);
    if s != [] {
      if |s| >= 2 && First(rule, s[0]) && Second(rule, s[1]) {
        var rest := Sub(rule, s[2..]);
        SubInsertsStars(rule, s[2..]);
        assert r[1..][1..][1..] == rest;
        assert s[1..][1..] == s[2..];
        assert StarsInserted(s[1..], r[1..][1..]);
        assert StarsInserted(s[1..], r[1..]);
      } else {
        SubInsertsStars(rule, s[1..]);
        assert r[1..] == Sub(rule, s[1..]);
      }
    }
  }

  /** `insert_multiplication_signs` returns its input with zero or more `*` inserted. */
  lemma InsertMultiplicationSignsInsertsStars(s: string)
    ensures StarsInserted(s, InsertMultiplicationSigns(s))
    ensures DropStars(InsertMultiplicationSigns(s)) == DropStars(s)
  {
    var s1 := Sub(DigitLetter, s);
    var s2 := Sub(LetterParen, s1);
    var s3 := Sub(ParenLetter, s2);
    SubInsertsStars(DigitLetter, s);
    SubInsertsStars(LetterParen, s1);
    SubInsertsStars(ParenLetter, s2);
    StarsInsertedTransitive(s, s1, s2);
    StarsInsertedTransitive(s, s2, s3);
    StarsInsertedKeepsOthers(s, s3);
  }

  // ---------------------------------------------------------------------
  // The patterns are gone afterwards
  // ---------------------------------------------------------------------

  /** No two adjacent characters of `s` form a match of `rule`. */
  ghost predicate NoMatch(rule: Rule, s: string)
  {
    forall i :: 0 <= i < |s| - 1 ==> !(First(rule, s[i]) && Second(rule, s[i + 1]))
  }

  /** No digit before a letter, no letter before `(`, no `)` before a letter. */
  ghost predicate Explicit(s: string)
  {
    NoMatch(DigitLetter, s) && NoMatch(LetterParen, s) && NoMatch(ParenLetter, s)
  }

  /** A substitution keeps the first character, and the length never drops. */
  lemma SubShape(rule: Rule, s: string)
    ensures |Sub(rule, s)| > |s| || Sub(rule, s) == s
    ensures s != [] ==> Sub(rule, s) != [] && Sub(rule, s)[0] == s[0]
  {
  }

  lemma NoMatchCons(rule: Rule, c: char, s: string)
    ensures NoMatch(rule, [c] + s) <==> (s == [] || !(First(rule, c) && Second(rule, s[0]))) && NoMatch(rule, s)
  {
    var t := [c] + s;
    assert forall i :: 0 <= i < |s| ==> t[i + 1] == s[i];
    if NoMatch(rule, t) {
      forall i | 0 <= i < |s| - 1 ensures !(First(rule, s[i]) && Second(rule, s[i + 1])) {
        assert t[i + 1] == s[i] && t[i + 2] == s[i + 1];
      }
      if s != [] {
        assert t[0] == c && t[1] == s[0];
      }
    }
    if NoMatch(rule, s) && (s == [] || !(First(rule, c) && Second(rule, s[0]))) {
      forall i | 0 <= i < |t| - 1 ensures !(First(rule, t[i]) && Second(rule, t[i + 1])) {
        if i > 0 {
          assert t[i] == s[i - 1];
        }
      }
    }
  }

  /** After a substitution, no match of its rule is left. */
  lemma {:induction false} SubRemovesMatches(rule: Rule, s: string)
    ensures NoMatch(rule, Sub(rule, s))
    decreases |s|
  {
    if s != [] {
      if |s| >= 2 && First(rule, s[0]) && Second(rule, s[1]) {
        var rest := Sub(rule, s[2..]);
        SubRemovesMatches(rule, s[2..]);
        SubShape(rule, s[2..]);
        assert !First(rule, s[1]) by {
          match rule
          case DigitLetter =>
          case LetterParen =>
          case ParenLetter =>
        }
        NoMatchCons(rule, s[1], rest);
        NoMatchCons(rule, '*', [s[1]] + rest);
        NoMatchCons(rule, s[0], ['*'] + ([s[1]] + rest));
        assert Sub(rule, s) == [s[0]] + (['*'] + ([s[1]] + rest));
      } else {
        var rest := Sub(rule, s[1..]);
        SubRemovesMatches(rule, s[1..]);
        SubShape(rule, s[1..]);
        NoMatchCons(rule, s[0], rest);
      }
    }
  }

  /** A substitution does not create a match of any rule: it only separates characters by `*`. */
  lemma {:induction false} SubKeepsNoMatch(rule: Rule, other: Rule, s: string)
    requires NoMatch(other, s)
    ensures NoMatch(other, Sub(rule, s))
    decreases |s|
  {
    if s != [] {
      assert s == [s[0]] + s[1..];
      if |s| >= 2 && First(rule, s[0]) && Second(rule, s[1]) {
        assert s[1..] == [s[1]] + s[2..];
        NoMatchCons(other, s[0], s[1..]);
        NoMatchCons(other, s[1], s[2..]);
        SubKeepsNoMatch(rule, other, s[2..]);
        SubShape(rule, s[2..]);
        KeptAfterStar(other, s[0], s[1], s[2..], Sub(rule, s[2..]));
        assert Sub(rule, s) == [s[0]] + (['*'] + ([s[1]] + Sub(rule, s[2..])));
      } else {
        NoMatchCons(other, s[0], s[1..]);
        SubKeepsNoMatch(rule, other, s[1..]);
        SubShape(rule, s[1..]);
        KeptAfter(other, s[0], s[1..], Sub(rule, s[1..]));
      }
    }
  }

  /** `a` followed by a rewritten tail `t` that starts like the original tail `rest` has no match. */
  lemma KeptAfter(rule: Rule, a: char, rest: string, t: string)
    requires NoMatch(rule, [a] + rest) && NoMatch(rule, t)
    requires rest != [] ==> t != [] && t[0] == rest[0]
    requires rest == [] ==> t == []
    ensures NoMatch(rule, [a] + t)
  {
    NoMatchCons(rule, a, rest);
    NoMatchCons(rule, a, t);
  }

  /** As `KeptAfter`, with `a` and `b` separated by a `*`. */
  lemma KeptAfterStar(rule: Rule, a: char, b: char, rest: string, t: string)
    requires NoMatch(rule, [b] + rest) && NoMatch(rule, t)
    requires rest != [] ==> t != [] && t[0] == rest[0]
    requires rest == [] ==> t == []
    ensures NoMatch(rule, [a] + (['*'] + ([b] + t)))
  {
    KeptAfter(rule, b, rest, t);
    StarBetween(rule, a, b, t);
  }

  /** A `*` between two characters keeps them from matching; only `b`'s pairing with what follows counts. */
  lemma StarBetween(rule: Rule, a: char, b: char, rest: string)
    requires NoMatch(rule, [b] + rest)
    ensures NoMatch(rule, [a] + (['*'] + ([b] + rest)))
  {
    NoMatchCons(rule, '*', [b] + rest);
    NoMatchCons(rule, a, ['*'] + ([b] + rest));
  }

  /** After `insert_multiplication_signs` none of the three patterns is left. */
  lemma InsertMultiplicationSignsExplicit(s: string)
    ensures Explicit(InsertMultiplicationSigns(s))
  {
    var s1 := Sub(DigitLetter, s);
    var s2 := Sub(LetterParen, s1);
    SubRemovesMatches(DigitLetter, s);
    SubKeepsNoMatch(LetterParen, DigitLetter, s1);
    SubRemovesMatches(LetterParen, s1);
    SubKeepsNoMatch(ParenLetter, DigitLetter, s2);
    SubKeepsNoMatch(ParenLetter, LetterParen, s2);
    SubRemovesMatches(ParenLetter, s2);
  }

  // ---------------------------------------------------------------------
  // Fixed points and idempotence
  // ---------------------------------------------------------------------

  /** A substitution leaves a string alone exactly when its rule has no match there. */
  lemma {:induction false} SubFixedExactly(rule: Rule, s: string)
    ensures Sub(rule, s) == s <==> NoMatch(rule, s)
    decreases |s|
  {
    if s != [] {
      if |s| >= 2 && First(rule, s[0]) && Second(rule, s[1]) {
        SubShape(rule, s[2..]);
        assert !NoMatch(rule, s) by {
          assert First(rule, s[0]) && Second(rule, s[1]);
        }
      } else {
        SubFixedExactly(rule, s[1..]);
        NoMatchCons(rule, s[0], s[1..]);
        assert s == [s[0]] + s[1..];
        assert Sub(rule, s) == s <==> Sub(rule, s[1..]) == s[1..];
      }
    }
  }

  /** `insert_multiplication_signs` leaves a string alone exactly when none of the three patterns occurs in it. */
  lemma InsertMultiplicationSignsFixedExactly(s: string)
    ensures InsertMultiplicationSigns(s) == s <==> Explicit(s)
  {
    var s1 := Sub(DigitLetter, s);
    var s2 := Sub(LetterParen, s1);
    var s3 := Sub(ParenLetter, s2);
    SubFixedExactly(DigitLetter, s);
    SubFixedExactly(LetterParen, s1);
    SubFixedExactly(ParenLetter, s2);
    SubShape(DigitLetter, s);
    SubShape(LetterParen, s1);
    SubShape(ParenLetter, s2);
    if s3 == s {
      assert s1 == s && s2 == s;
    }
    if Explicit(s) {
      assert s1 == s && s2 == s;
    }
  }

  /** Applying `insert_multiplication_signs` to its own output changes nothing. */
  lemma InsertMultiplicationSignsIdempotent(s: string)
    ensures InsertMultiplicationSigns(InsertMultiplicationSigns(s)) == InsertMultiplicationSigns(s)
  {
    InsertMultiplicationSignsExplicit(s);
    InsertMultiplicationSignsFixedExactly(InsertMultiplicationSigns(s));
  }

  /** Every pattern needs a letter, so text without letters comes back unchanged. */
  lemma NoLetterUnchanged(s: string)
    requires forall i :: 0 <= i < |s| ==> !IsLetter(s[i])
    ensures InsertMultiplicationSigns(s) == s
  {
    InsertMultiplicationSignsFixedExactly(s);
  }

  /** `)(` has no letter, so no `*` goes between adjacent parentheses. */
  lemma ParenthesesNotSeparated()
    ensures InsertMultiplicationSigns(")(") == ")("
  {
    NoLetterUnchanged(")(");
  }
}
