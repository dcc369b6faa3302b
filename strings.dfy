/**
 * The Python string methods `parse_equation` relies on: `str.replace(old, new)`
 * and `str.split(sep)`, both scanning left to right over non-overlapping
 * occurrences, and the selection of the characters of one class.
 */
module Strings {
  import opened Wrappers

  /** `sep` occurs in `s` starting at index `j`. */
  predicate OccursAt(s: string, sep: string, j: int)
  {
    0 <= j && j + |sep| <= |s| && s[j..j + |sep|] == sep
  }

  /** `i` is the first index where `sep` occurs in `s`. */
  predicate FirstOccurrence(s: string, sep: string, i: int)
  {
    OccursAt(s, sep, i) && forall j :: 0 <= j < i ==> !OccursAt(s, sep, j)
  }

  /** `sep` occurs nowhere in `s`. */
  ghost predicate Absent(s: string, sep: string)
  {
    forall j :: 0 <= j ==> !OccursAt(s, sep, j)
  }

  lemma OccursInPrefix(s: string, sep: string, k: int, j: int)
    requires 0 <= k <= |s|
    ensures OccursAt(s[..k], sep, j) ==> OccursAt(s, sep, j) && j + |sep| <= k
  {
    if OccursAt(s[..k], sep, j) {
      assert s[..k][j..j + |sep|] == s[j..j + |sep|];
    }
  }

  lemma OccursAtDrop(s: string, sep: string, k: int, j: int)
    requires 0 <= k <= |s| && 0 <= j
    ensures OccursAt(s, sep, k + j) <==> OccursAt(s[k..], sep, j)
  {
    if j + |sep| <= |s| - k {
      assert s[k..][j..j + |sep|] == s[k + j..k + j + |sep|];
    }
  }

  // ---------------------------------------------------------------------
  // Selecting characters
  // ---------------------------------------------------------------------

  /** The characters of `s` that satisfy `p`, in order. */
  function Filter(s: string, p: char -> bool): string
  {
    if s == [] then [] else (if p(s[0]) then [s[0]] else []) + Filter(s[1..], p)
  }

  lemma {:induction false} FilterAppend(a: string, b: string, p: char -> bool)
    ensures Filter(a + b, p) == Filter(a, p) + Filter(b, p)
    decreases |a|
  {
    if a != [] {
      assert (a + b)[1..] == a[1..] + b;
      FilterAppend(a[1..], b, p);
    } else {
      assert a + b == b;
    }
  }

  /** Nothing is selected exactly when no character satisfies `p`. */
  lemma {:induction false} FilterEmpty(s: string, p: char -> bool)
    ensures Filter(s, p) == [] <==> forall i :: 0 <= i < |s| ==> !p(s[i])
    decreases |s|
  {
    if s != [] {
      FilterEmpty(s[1..], p);
      assert forall i :: 1 <= i < |s| ==> s[i] == s[1..][i - 1];
    }
  }

  // ---------------------------------------------------------------------
  // str.replace
  // ---------------------------------------------------------------------

  /** `s.replace(pat, rep)`: each occurrence of `pat`, left to right and without overlap, becomes `rep`. */
  function ReplaceAll(s: string, pat: string, rep: string): string
    requires pat != []
    decreases |s|
  {
    if s == [] then []
    else if pat <= s then rep + ReplaceAll(s[|pat|..], pat, rep)
    else [s[0]] + ReplaceAll(s[1..], pat, rep)
  }

  /** Replacing text that selects nothing by text that selects nothing keeps the selection. */
  lemma {:induction false} ReplaceAllKeeps(s: string, pat: string, rep: string, p: char -> bool)
    requires pat != []
    requires Filter(pat, p) == [] && Filter(rep, p) == []
    ensures Filter(ReplaceAll(s, pat, rep), p) == Filter(s, p)
    decreases |s|
  {
    if s != [] {
      if pat <= s {
        var rest := s[|pat|..];
        ReplaceAllKeeps(rest, pat, rep, p);
        assert s == pat + rest;
        FilterAppend(pat, rest, p);
        FilterAppend(rep, ReplaceAll(rest, pat, rep), p);
      } else {
        ReplaceAllKeeps(s[1..], pat, rep, p);
        FilterAppend([s[0]], ReplaceAll(s[1..], pat, rep), p);
      }
    }
  }

  /** A one-character pattern is gone afterwards, unless the replacement brings it back. */
  lemma {:induction false} ReplaceCharGone(s: string, c: char, rep: string)
    requires forall i :: 0 <= i < |rep| ==> rep[i] != c
    ensures forall i :: 0 <= i < |ReplaceAll(s, [c], rep)| ==> ReplaceAll(s, [c], rep)[i] != c
    decreases |s|
  {
    if s != [] {
      ReplaceCharGone(s[1..], c, rep);
    }
  }

  /** A character found in neither the text nor the replacement is not in the result. */
  lemma {:induction false} ReplaceAllFree(s: string, pat: string, rep: string, c: char)
    requires pat != []
    requires forall i :: 0 <= i < |s| ==> s[i] != c
    requires forall i :: 0 <= i < |rep| ==> rep[i] != c
    ensures forall i :: 0 <= i < |ReplaceAll(s, pat, rep)| ==> ReplaceAll(s, pat, rep)[i] != c
    decreases |s|
  {
    if s != [] {
      var rest := if pat <= s then s[|pat|..] else s[1..];
      assert forall i :: 0 <= i < |rest| ==> rest[i] == s[i + |s| - |rest|];
      ReplaceAllFree(rest, pat, rep, c);
    }
  }

  lemma PrefixOccurs(s: string, pat: string)
    ensures pat <= s <==> OccursAt(s, pat, 0)
  {
    if pat <= s {
      assert s[0..|pat|] == pat;
    }
  }

  /** Text without the pattern comes back unchanged. */
  lemma {:induction false} ReplaceAllAbsent(s: string, pat: string, rep: string)
    requires pat != []
    requires Absent(s, pat)
    ensures ReplaceAll(s, pat, rep) == s
    decreases |s|
  {
    if s != [] {
      PrefixOccurs(s, pat);
      forall j | 0 <= j
        ensures !OccursAt(s[1..], pat, j)
      {
        OccursAtDrop(s, pat, 1, j);
      }
      ReplaceAllAbsent(s[1..], pat, rep);
    }
  }

  // ---------------------------------------------------------------------
  // str.split
  // ---------------------------------------------------------------------

  /** `s.find(sep, i)`: the first index from `i` on where `sep` occurs, if any. */
  function Find(s: string, sep: string, i: nat): Option<nat>
    decreases |s| - i
  {
    if i + |sep| > |s| then None
    else if OccursAt(s, sep, i) then Some(i)
    else Find(s, sep, i + 1)
  }

  /** `Find` returns the first occurrence from `i` on, and `None` exactly when there is none. */
  lemma {:induction false} FindFirst(s: string, sep: string, i: nat)
    ensures Find(s, sep, i).None? ==> forall j :: i <= j ==> !OccursAt(s, sep, j)
    ensures Find(s, sep, i).Some? ==> var k := Find(s, sep, i).value;
      i <= k && OccursAt(s, sep, k) && forall j :: i <= j < k ==> !OccursAt(s, sep, j)
    decreases |s| - i
  {
    if i + |sep| <= |s| && !OccursAt(s, sep, i) {
      FindFirst(s, sep, i + 1);
    }
  }

  /**
   * `s.split(sep)`: the piece before the first occurrence of `sep`, then the
   * split of what follows that occurrence; the whole text when `sep` does not occur.
   */
  function SplitOn(s: string, sep: string): (parts: seq<string>)
    requires sep != []
    ensures parts != []
    decreases |s|
  {
    match Find(s, sep, 0)
    case None => [s]
    case Some(k) =>
      FindFirst(s, sep, 0);
      [s[..k]] + SplitOn(s[k + |sep|..], sep)
  }

  /** The pieces joined with `sep` in between. */
  function Join(parts: seq<string>, sep: string): string
    requires parts != []
  {
    if |parts| == 1 then parts[0] else parts[0] + sep + Join(parts[1..], sep)
  }

  /** Joining the pieces with `sep` gives the text back. */
  lemma {:induction false} SplitJoin(s: string, sep: string)
    requires sep != []
    ensures Join(SplitOn(s, sep), sep) == s
    decreases |s|
  {
    FindFirst(s, sep, 0);
    match Find(s, sep, 0)
    case None =>
    case Some(k) =>
      var rest := s[k + |sep|..];
      SplitJoin(rest, sep);
      assert s == s[..k] + sep + rest;
  }

  /** No piece contains `sep`. */
  lemma {:induction false} SplitPiecesFree(s: string, sep: string)
    requires sep != []
    ensures forall n :: 0 <= n < |SplitOn(s, sep)| ==> Absent(SplitOn(s, sep)[n], sep)
    decreases |s|
  {
    FindFirst(s, sep, 0);
    match Find(s, sep, 0)
    case None =>
    case Some(k) =>
      var rest := s[k + |sep|..];
      SplitPiecesFree(rest, sep);
      forall j | 0 <= j
        ensures !OccursAt(s[..k], sep, j)
      {
        OccursInPrefix(s, sep, k, j);
      }
  }

  /** The split has a single piece exactly when `sep` does not occur. */
  lemma SplitSingle(s: string, sep: string)
    requires sep != []
    ensures |SplitOn(s, sep)| == 1 <==> Absent(s, sep)
  {
    FindFirst(s, sep, 0);
  }

  /** No occurrence of `sep` starts after the one at `i` ends. */
  ghost predicate NoneAfter(s: string, sep: string, i: int)
  {
    forall j :: i + |sep| <= j ==> !OccursAt(s, sep, j)
  }

  lemma NoneAfterRest(s: string, sep: string, i: int)
    requires OccursAt(s, sep, i)
    ensures NoneAfter(s, sep, i) <==> Absent(s[i + |sep|..], sep)
  {
    var k := i + |sep|;
    var rest := s[k..];
    if NoneAfter(s, sep, i) {
      forall j | 0 <= j
        ensures !OccursAt(rest, sep, j)
      {
        OccursAtDrop(s, sep, k, j);
      }
    }
    if Absent(rest, sep) {
      forall j | k <= j
        ensures !OccursAt(s, sep, j)
      {
        OccursAtDrop(s, sep, k, j - k);
      }
    }
  }

  /**
   * The split has exactly two pieces when, after the first occurrence of `sep`,
   * no further occurrence starts; a second non-overlapping occurrence gives more.
   */
  lemma SplitTwo(s: string, sep: string)
    requires sep != []
    ensures |SplitOn(s, sep)| == 2 <==> exists i :: FirstOccurrence(s, sep, i) && NoneAfter(s, sep, i)
  {
    FindFirst(s, sep, 0);
    match Find(s, sep, 0)
    case None =>
    case Some(i) =>
      SplitSingle(s[i + |sep|..], sep);
      NoneAfterRest(s, sep, i);
      assert FirstOccurrence(s, sep, i);
      if exists f :: FirstOccurrence(s, sep, f) && NoneAfter(s, sep, f) {
        var f :| FirstOccurrence(s, sep, f) && NoneAfter(s, sep, f);
        assert f == i;
      }
  }
}
