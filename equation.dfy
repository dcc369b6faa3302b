/**
 * The string front end of Resolution_final.py's `parse_equation(equation)`:
 * normalise the text, find the comparator, split the two sides around it,
 * build the expression `(L)-(R)` with explicit products and pick the
 * variable. What happens to the expression afterwards (the computer-algebra
 * calls) is not part of this model; the result records what is handed over
 * to them: the expression text, the variable and the comparator.
 */
module Equation {
  import opened Wrappers
  import opened Strings
  import opened Multiplication

  // ---------------------------------------------------------------------
  // Normalisation
  // ---------------------------------------------------------------------

  /** The superscript two, written `x²` for a square. */
  const Superscript2: char := '\U{B2}'

  /** `²` becomes `^2`, then spaces go, then `**` becomes `^`, in that order. */
  function Normalize(equation: string): string
  {
    ReplaceAll(ReplaceAll(ReplaceAll(equation, [Superscript2], "^2"), " ", ""), "**", "^")
  }

  /** No two adjacent `*`. */
  predicate NoStarPair(s: string)
  {
    forall i :: 0 <= i < |s| - 1 ==> !(s[i] == '*' && s[i + 1] == '*')
  }

  lemma StarPairCons(c: char, s: string)
    ensures NoStarPair([c] + s) <==> (s == [] || !(c == '*' && s[0] == '*')) && NoStarPair(s)
  {
    var t := [c] + s;
    assert forall i :: 0 <= i < |s| ==> t[i + 1] == s[i];
    if NoStarPair(t) {
      forall i | 0 <= i < |s| - 1 ensures !(s[i] == '*' && s[i + 1] == '*') {
        assert t[i + 1] == s[i] && t[i + 2] == s[i + 1];
      }
      if s != [] {
        assert t[0] == c && t[1] == s[0];
      }
    }
  }

  lemma NoStarPairAbsent(s: string)
    requires NoStarPair(s)
    ensures Absent(s, "**")
  {
    forall j | 0 <= j
      ensures !OccursAt(s, "**", j)
    {
      StarStarAt(s, j);
    }
  }

  lemma StarStarAt(s: string, j: int)
    ensures OccursAt(s, "**", j) ==> j + 1 < |s| && s[j] == '*' && s[j + 1] == '*'
  {
    if OccursAt(s, "**", j) {
      assert s[j..j + 2][0] == s[j] && s[j..j + 2][1] == s[j + 1];
    }
  }

  /** The replacement of `**` starts with `*` only where the text starts with a lone `*`. */
  lemma StarHead(s: string)
    requires s != []
    ensures ReplaceAll(s, "**", "^") != []
    ensures ReplaceAll(s, "**", "^")[0] == '*' ==> s[0] == '*' && !("**" <= s)
  {
  }

  /** After `replace('**', '^')` no `**` is left: a lone `*` is never followed by another. */
  lemma {:induction false} DoubleStarGone(s: string)
    ensures NoStarPair(ReplaceAll(s, "**", "^"))
    decreases |s|
  {
    if s != [] {
      if "**" <= s {
        DoubleStarGone(s[2..]);
        StarPairCons('^', ReplaceAll(s[2..], "**", "^"));
        assert ReplaceAll(s, "**", "^") == ['^'] + ReplaceAll(s[2..], "**", "^");
      } else {
        var rest := ReplaceAll(s[1..], "**", "^");
        DoubleStarGone(s[1..]);
        if s[1..] != [] {
          StarHead(s[1..]);
          assert s[0] == '*' ==> s[1..][0] != '*';
        }
        StarPairCons(s[0], rest);
      }
    }
  }

  /**
   * The later `replace('^', '**')` undoes `replace('**', '^')` on text that had
   * no `^` of its own: the power operators come back as they were written.
   */
  lemma {:induction false} PowerRoundTrip(s: string)
    requires forall i :: 0 <= i < |s| ==> s[i] != '^'
    ensures ReplaceAll(ReplaceAll(s, "**", "^"), "^", "**") == s
    decreases |s|
  {
    if s != [] {
      if "**" <= s {
        var r := ReplaceAll(s[2..], "**", "^");
        PowerRoundTrip(s[2..]);
        assert ("^" + r)[1..] == r;
        assert s == "**" + s[2..];
      } else {
        var r := ReplaceAll(s[1..], "**", "^");
        PowerRoundTrip(s[1..]);
        assert ([s[0]] + r)[1..] == r;
      }
    }
  }

  /** A selection of characters that none of the normalising replacements touches is kept. */
  lemma NormalizeKeeps(equation: string, p: char -> bool)
    requires !p(Superscript2) && !p('^') && !p('2') && !p(' ') && !p('*')
    ensures Filter(Normalize(equation), p) == Filter(equation, p)
  {
    var s1 := ReplaceAll(equation, [Superscript2], "^2");
    var s2 := ReplaceAll(s1, " ", "");
    ReplaceAllKeeps(equation, [Superscript2], "^2", p);
    ReplaceAllKeeps(s1, " ", "", p);
    ReplaceAllKeeps(s2, "**", "^", p);
  }

  /** The normalised text has no `²`, no space and no `**`. */
  lemma NormalizeClean(equation: string)
    ensures forall i :: 0 <= i < |Normalize(equation)| ==> Normalize(equation)[i] != Superscript2
    ensures forall i :: 0 <= i < |Normalize(equation)| ==> Normalize(equation)[i] != ' '
    ensures Absent(Normalize(equation), "**")
  {
    var s1 := ReplaceAll(equation, [Superscript2], "^2");
    var s2 := ReplaceAll(s1, " ", "");
    ReplaceCharGone(equation, Superscript2, "^2");
    ReplaceAllFree(s1, " ", "", Superscript2);
    ReplaceAllFree(s2, "**", "^", Superscript2);
    ReplaceCharGone(s1, ' ', "");
    ReplaceAllFree(s2, "**", "^", ' ');
    DoubleStarGone(s2);
    NoStarPairAbsent(Normalize(equation));
  }

  // ---------------------------------------------------------------------
  // The comparator
  // ---------------------------------------------------------------------

  predicate IsComparatorChar(c: char)
  {
    c == '<' || c == '>' || c == '='
  }

  datatype Comparator = Le | Ge | Eq | Lt | Gt

  /** The comparator as written, `comp` in the source. */
  function Text(c: Comparator): (t: string)
    ensures t != [] && IsComparatorChar(t[0])
    ensures forall i :: 0 <= i < |t| ==> IsComparatorChar(t[i])
  {
    match c
    case Le => "<="
    case Ge => ">="
    case Eq => "="
    case Lt => "<"
    case Gt => ">"
  }

  /** The pattern `<=|>=|=|<|>` tried at index `i`: its alternatives in the order written. */
  function ComparatorAt(s: string, i: nat): Option<Comparator>
    requires i < |s|
  {
    if OccursAt(s, "<=", i) then Some(Le)
    else if OccursAt(s, ">=", i) then Some(Ge)
    else if OccursAt(s, "=", i) then Some(Eq)
    else if OccursAt(s, "<", i) then Some(Lt)
    else if OccursAt(s, ">", i) then Some(Gt)
    else None
  }

  /** A comparator matches at `i` exactly at a comparator character, and it is the longest one there. */
  lemma ComparatorAtLongest(s: string, i: nat)
    requires i < |s|
    ensures ComparatorAt(s, i).Some? <==> IsComparatorChar(s[i])
    ensures ComparatorAt(s, i).Some? ==>
      var c := ComparatorAt(s, i).value;
      OccursAt(s, Text(c), i) && forall d :: OccursAt(s, Text(d), i) ==> |Text(d)| <= |Text(c)|
  {
    assert OccursAt(s, "=", i) <==> s[i] == '=';
    assert OccursAt(s, "<", i) <==> s[i] == '<';
    assert OccursAt(s, ">", i) <==> s[i] == '>';
    forall d | OccursAt(s, Text(d), i) && |Text(d)| == 2
      ensures OccursAt(s, Text(d), i) && (d == Le || d == Ge)
    {
    }
  }

  /** `re.search`: the first index from `i` on where the pattern matches, with the comparator found there. */
  function Search(s: string, i: nat): Option<(nat, Comparator)>
    decreases |s| - i
  {
    if i >= |s| then None
    else match ComparatorAt(s, i)
      case Some(c) => Some((i, c))
      case None => Search(s, i + 1)
  }

  function FindComparator(s: string): Option<(nat, Comparator)>
  {
    Search(s, 0)
  }

  lemma {:induction false} SearchFirst(s: string, i: nat)
    ensures Search(s, i).None? <==> forall j :: i <= j < |s| ==> !IsComparatorChar(s[j])
    ensures Search(s, i).Some? ==>
      var (k, c) := Search(s, i).value;
      i <= k < |s| && ComparatorAt(s, k) == Some(c) && forall j :: i <= j < k ==> !IsComparatorChar(s[j])
    decreases |s| - i
  {
    if i < |s| {
      ComparatorAtLongest(s, i);
      SearchFirst(s, i + 1);
    }
  }

  /** Every occurrence of a comparator starts with a comparator character. */
  lemma OccursAtComparatorChar(s: string, c: Comparator, j: int)
    requires OccursAt(s, Text(c), j)
    ensures IsComparatorChar(s[j])
  {
    assert s[j..j + |Text(c)|][0] == s[j];
  }

  /**
   * No comparator is found exactly when no `<`, `>` or `=` occurs; otherwise the
   * match is the leftmost one, the longest at its index, and the first
   * occurrence of its own text.
   */
  lemma FindComparatorLeftmostLongest(s: string)
    ensures FindComparator(s).None? <==> forall j :: 0 <= j < |s| ==> !IsComparatorChar(s[j])
    ensures FindComparator(s).Some? ==>
      var (k, c) := FindComparator(s).value;
      && k < |s|
      && (forall j :: 0 <= j < k ==> !IsComparatorChar(s[j]))
      && FirstOccurrence(s, Text(c), k)
      && (forall d :: OccursAt(s, Text(d), k) ==> |Text(d)| <= |Text(c)|)
  {
    SearchFirst(s, 0);
    if FindComparator(s).Some? {
      var (k, c) := FindComparator(s).value;
      ComparatorAtLongest(s, k);
      forall j | 0 <= j < k
        ensures !OccursAt(s, Text(c), j)
      {
        if OccursAt(s, Text(c), j) {
          OccursAtComparatorChar(s, c, j);
        }
      }
    }
  }

  // ---------------------------------------------------------------------
  // The expression and the variable
  // ---------------------------------------------------------------------

  /** `f"({left})-({right})"`, then explicit products, then `^` back to `**`. */
  function Build(left: string, right: string): string
  {
    ReplaceAll(InsertMultiplicationSigns(Difference(left, right)), "^", "**")
  }

  /** `f"({left})-({right})"`. */
  function Difference(left: string, right: string): string
  {
    "(" + left + ")-(" + right + ")"
  }

  /** Selecting no parenthesis and no minus sign picks from the two sides only. */
  lemma DifferenceKeeps(left: string, right: string, p: char -> bool)
    requires !p('(') && !p(')') && !p('-')
    ensures Filter(Difference(left, right), p) == Filter(left, p) + Filter(right, p)
  {
    var a := "(" + left;
    var b := a + ")-(";
    var c := b + right;
    assert Difference(left, right) == c + ")";
    FilterEmpty("(", p);
    FilterEmpty(")", p);
    FilterEmpty(")-(", p);
    FilterAppend(c, ")", p);
    FilterAppend(b, right, p);
    FilterAppend(a, ")-(", p);
    FilterAppend("(", left, p);
  }

  /** The characters other than `*` are kept when stars are dropped. */
  lemma {:induction false} FilterDropStars(s: string, p: char -> bool)
    requires !p('*')
    ensures Filter(DropStars(s), p) == Filter(s, p)
    decreases |s|
  {
    if s != [] {
      FilterDropStars(s[1..], p);
      FilterAppend(if s[0] == '*' then [] else [s[0]], DropStars(s[1..]), p);
    }
  }

  /** Inserting `*` keeps every selection that does not pick `*`. */
  lemma InsertKeeps(s: string, p: char -> bool)
    requires !p('*')
    ensures Filter(InsertMultiplicationSigns(s), p) == Filter(s, p)
  {
    InsertMultiplicationSignsInsertsStars(s);
    FilterDropStars(InsertMultiplicationSigns(s), p);
    FilterDropStars(s, p);
  }

  /** The letters of the expression are those of the two sides, in order. */
  lemma BuildLetters(left: string, right: string)
    ensures Filter(Build(left, right), IsLetter) == Filter(left, IsLetter) + Filter(right, IsLetter)
  {
    var y := Difference(left, right);
    ReplaceAllKeeps(InsertMultiplicationSigns(y), "^", "**", IsLetter);
    InsertKeeps(y, IsLetter);
    DifferenceKeeps(left, right, IsLetter);
  }

  /** `^` is neither digit, letter nor parenthesis, and neither is `*`: writing it as `**` creates no pattern. */
  lemma {:induction false} CaretKeepsNoMatch(rule: Rule, s: string)
    requires NoMatch(rule, s)
    ensures NoMatch(rule, ReplaceAll(s, "^", "**"))
    decreases |s|
  {
    if s != [] {
      var rest := ReplaceAll(s[1..], "^", "**");
      assert s == [s[0]] + s[1..];
      NoMatchCons(rule, s[0], s[1..]);
      CaretKeepsNoMatch(rule, s[1..]);
      if s[0] == '^' {
        NoMatchCons(rule, '*', rest);
        NoMatchCons(rule, '*', ['*'] + rest);
        assert ReplaceAll(s, "^", "**") == ['*'] + (['*'] + rest);
      } else {
        if s[1..] != [] {
          assert rest[0] == s[1] || rest[0] == '*';
        }
        NoMatchCons(rule, s[0], rest);
      }
    }
  }

  /** The expression has every product written out, and its powers are `**` again. */
  lemma BuildExplicit(left: string, right: string)
    ensures Explicit(Build(left, right))
    ensures forall i :: 0 <= i < |Build(left, right)| ==> Build(left, right)[i] != '^'
  {
    var y := InsertMultiplicationSigns(Difference(left, right));
    InsertMultiplicationSignsExplicit(Difference(left, right));
    CaretKeepsNoMatch(DigitLetter, y);
    CaretKeepsNoMatch(LetterParen, y);
    CaretKeepsNoMatch(ParenLetter, y);
    ReplaceCharGone(y, '^', "**");
  }

  /** `sorted(set(re.findall('[a-zA-Z]', s)))[0]`: the smallest ASCII letter, if any. */
  function SmallestLetter(s: string): Option<char>
  {
    if s == [] then None
    else
      var rest := SmallestLetter(s[1..]);
      if !IsLetter(s[0]) || (rest.Some? && rest.value < s[0]) then rest else Some(s[0])
  }

  /** `None` exactly without letters; otherwise a letter of `s` below or equal to every other. */
  lemma {:induction false} SmallestLetterIsLeast(s: string)
    ensures SmallestLetter(s).None? <==> forall i :: 0 <= i < |s| ==> !IsLetter(s[i])
    ensures SmallestLetter(s).Some? ==>
      var v := SmallestLetter(s).value;
      IsLetter(v) && v in s && forall i :: 0 <= i < |s| && IsLetter(s[i]) ==> v <= s[i]
    decreases |s|
  {
    if s != [] {
      SmallestLetterIsLeast(s[1..]);
      assert forall i :: 1 <= i < |s| ==> s[i] == s[1..][i - 1];
    }
  }

  /** Only the letters decide the smallest letter. */
  lemma {:induction false} SmallestLetterOfLetters(s: string)
    ensures SmallestLetter(Filter(s, IsLetter)) == SmallestLetter(s)
    decreases |s|
  {
    if s != [] {
      var f := Filter(s[1..], IsLetter);
      SmallestLetterOfLetters(s[1..]);
      if IsLetter(s[0]) {
        assert Filter(s, IsLetter) == [s[0]] + f;
        assert ([s[0]] + f)[1..] == f;
      } else {
        assert Filter(s, IsLetter) == f;
      }
    }
  }

  // ---------------------------------------------------------------------
  // parse_equation
  // ---------------------------------------------------------------------

  /** Each is a `ValueError` in the source: two raised explicitly, one from the two-way unpack. */
  datatype Error = NoComparator | UnpackMismatch | NoVariable

  /** What the algebra step receives: the expression text, the variable and the comparator. */
  datatype Parsed = Parsed(expr: string, variable: char, comparator: Comparator)

  function ParseEquation(equation: string): Result<Parsed, Error>
  {
    var n := Normalize(equation);
    match FindComparator(n)
    case None => Err(NoComparator)
    case Some((_, c)) =>
      var parts := SplitOn(n, Text(c));
      if |parts| != 2 then Err(UnpackMismatch)
      else
        var expr := Build(parts[0], parts[1]);
        match SmallestLetter(expr)
        case None => Err(NoVariable)
        case Some(v) => Ok(Parsed(expr, v, c))
  }

  /** Normalisation neither adds nor removes `<`, `>` or `=`, nor a letter. */
  lemma NormalizeKeepsComparatorsAndLetters(equation: string)
    ensures Filter(Normalize(equation), IsComparatorChar) == Filter(equation, IsComparatorChar)
    ensures Filter(Normalize(equation), IsLetter) == Filter(equation, IsLetter)
  {
    NormalizeKeeps(equation, IsComparatorChar);
    NormalizeKeeps(equation, IsLetter);
  }

  /** The equation is rejected for want of a comparator exactly when it has no `<`, `>` or `=`. */
  lemma ParseNoComparator(equation: string)
    ensures ParseEquation(equation) == Err(NoComparator)
        <==> forall i :: 0 <= i < |equation| ==> !IsComparatorChar(equation[i])
  {
    var n := Normalize(equation);
    FindComparatorLeftmostLongest(n);
    NormalizeKeepsComparatorsAndLetters(equation);
    FilterEmpty(n, IsComparatorChar);
    FilterEmpty(equation, IsComparatorChar);
  }

  /** With the comparator found at `k`, the unpack fails exactly when its text occurs again after that occurrence. */
  lemma ParseUnpack(equation: string, k: nat, c: Comparator)
    requires FindComparator(Normalize(equation)) == Some((k, c))
    ensures ParseEquation(equation) == Err(UnpackMismatch) <==> !NoneAfter(Normalize(equation), Text(c), k)
  {
    var n := Normalize(equation);
    FindComparatorLeftmostLongest(n);
    SplitTwo(n, Text(c));
    if exists i :: FirstOccurrence(n, Text(c), i) && NoneAfter(n, Text(c), i) {
      var i :| FirstOccurrence(n, Text(c), i) && NoneAfter(n, Text(c), i);
      assert i == k;
    }
  }

  /** Two pieces joined by the separator. */
  lemma JoinTwo(parts: seq<string>, sep: string)
    requires |parts| == 2
    ensures Join(parts, sep) == parts[0] + sep + parts[1]
  {
    assert Join(parts[1..], sep) == parts[1];
  }

  /**
   * The two sides are the normalised text before and after the comparator,
   * neither containing it again, and the expression is built from them.
   */
  lemma ParseSides(equation: string)
    requires ParseEquation(equation).Ok?
    ensures var p := ParseEquation(equation).value;
      var n := Normalize(equation);
      var parts := SplitOn(n, Text(p.comparator));
      && |parts| == 2
      && n == parts[0] + Text(p.comparator) + parts[1]
      && Absent(parts[0], Text(p.comparator)) && Absent(parts[1], Text(p.comparator))
      && p.expr == Build(parts[0], parts[1])
  {
    var p := ParseEquation(equation).value;
    var n := Normalize(equation);
    SplitJoin(n, Text(p.comparator));
    JoinTwo(SplitOn(n, Text(p.comparator)), Text(p.comparator));
    SplitPiecesFree(n, Text(p.comparator));
  }

  /** The letters of the expression are the letters of the equation. */
  lemma SidesLetters(n: string, sep: string)
    requires sep != [] && |SplitOn(n, sep)| == 2
    requires forall i :: 0 <= i < |sep| ==> !IsLetter(sep[i])
    ensures Filter(Build(SplitOn(n, sep)[0], SplitOn(n, sep)[1]), IsLetter) == Filter(n, IsLetter)
  {
    var parts := SplitOn(n, sep);
    SplitJoin(n, sep);
    JoinTwo(parts, sep);
    FilterEmpty(sep, IsLetter);
    FilterAppend(parts[0] + sep, parts[1], IsLetter);
    FilterAppend(parts[0], sep, IsLetter);
    BuildLetters(parts[0], parts[1]);
  }

  /** The expression handed on has its products explicit, no `^`, and the letters of the equation. */
  lemma ParseExpression(equation: string)
    requires ParseEquation(equation).Ok?
    ensures var e := ParseEquation(equation).value.expr;
      && Explicit(e)
      && (forall i :: 0 <= i < |e| ==> e[i] != '^')
      && Filter(e, IsLetter) == Filter(equation, IsLetter)
  {
    var p := ParseEquation(equation).value;
    var n := Normalize(equation);
    var parts := SplitOn(n, Text(p.comparator));
    BuildExplicit(parts[0], parts[1]);
    SidesLetters(n, Text(p.comparator));
    NormalizeKeepsComparatorsAndLetters(equation);
  }

  /**
   * Once the comparator and the sides are found, the equation is rejected for
   * want of a variable exactly when it has no ASCII letter; otherwise the
   * variable is its smallest letter in code-point order.
   */
  lemma ParseVariable(equation: string)
    ensures ParseEquation(equation).Ok? ==>
      var v := ParseEquation(equation).value.variable;
      IsLetter(v) && v in equation && forall i :: 0 <= i < |equation| && IsLetter(equation[i]) ==> v <= equation[i]
    ensures ParseEquation(equation) != Err(NoComparator) && ParseEquation(equation) != Err(UnpackMismatch) ==>
      (ParseEquation(equation) == Err(NoVariable) <==> forall i :: 0 <= i < |equation| ==> !IsLetter(equation[i]))
  {
    var n := Normalize(equation);
    SmallestLetterIsLeast(equation);
    match FindComparator(n)
    case None =>
    case Some((k, c)) =>
      if |SplitOn(n, Text(c))| == 2 {
        var parts := SplitOn(n, Text(c));
        SidesLetters(n, Text(c));
        NormalizeKeepsComparatorsAndLetters(equation);
        SmallestLetterOfLetters(Build(parts[0], parts[1]));
        SmallestLetterOfLetters(equation);
      }
  }
}
