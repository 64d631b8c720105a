/**
 * Substring search over JavaScript strings (modelled as `seq<char>`): the
 * building block every regular expression of the extractor and the compiler
 * is written in.
 */
module Text {
  import opened Wrappers

  /** `pat` occurs in `s` starting at index `i`. */
  predicate MatchesAt(s: string, pat: string, i: nat) {
    i + |pat| <= |s| && s[i..i + |pat|] == pat
  }

  /**
   * `s.indexOf(pat, from)` as an Option: the first index at or after `from`
   * where `pat` occurs, or None when there is none (IndexOfSpec).
   */
  function IndexOf(s: string, pat: string, from: nat): Option<nat>
    decreases |s| - from
  {
    if from + |pat| > |s| then None
    else if MatchesAt(s, pat, from) then Some(from)
    else IndexOf(s, pat, from + 1)
  }

  /** The index found lies at or after `from`, with the whole pattern inside `s`. */
  lemma {:induction false} IndexOfBounds(s: string, pat: string, from: nat)
    ensures IndexOf(s, pat, from).Some? ==>
              from <= IndexOf(s, pat, from).value && IndexOf(s, pat, from).value + |pat| <= |s|
    decreases |s| - from
  {
    if from + |pat| <= |s| && !MatchesAt(s, pat, from) {
      IndexOfBounds(s, pat, from + 1);
    }
  }

  /** The index found is an occurrence, and no occurrence is skipped. */
  lemma {:induction false} IndexOfSpec(s: string, pat: string, from: nat)
    ensures IndexOf(s, pat, from).Some? ==>
              from <= IndexOf(s, pat, from).value && MatchesAt(s, pat, IndexOf(s, pat, from).value)
    ensures forall j :: from <= j && (IndexOf(s, pat, from).None? || j < IndexOf(s, pat, from).value) ==>
                          !MatchesAt(s, pat, j)
    decreases |s| - from
  {
    if from + |pat| <= |s| && !MatchesAt(s, pat, from) {
      IndexOfSpec(s, pat, from + 1);
    }
  }

  /** An occurrence with none before it (from `from` on) is what IndexOf finds. */
  lemma IndexOfIs(s: string, pat: string, from: nat, i: nat)
    requires from <= i && MatchesAt(s, pat, i)
    requires forall j :: from <= j < i ==> !MatchesAt(s, pat, j)
    ensures IndexOf(s, pat, from) == Some(i)
  {
    IndexOfSpec(s, pat, from);
  }

  /** With no occurrence at or after `from`, IndexOf finds nothing. */
  lemma IndexOfIsNone(s: string, pat: string, from: nat)
    requires forall j :: from <= j ==> !MatchesAt(s, pat, j)
    ensures IndexOf(s, pat, from).None?
  {
    IndexOfSpec(s, pat, from);
  }

  /** `i` is the first occurrence of `pat` in `s` at or after `from`. */
  predicate FirstFrom(s: string, pat: string, from: nat, i: nat) {
    from <= i && MatchesAt(s, pat, i) && forall j :: from <= j < i ==> !MatchesAt(s, pat, j)
  }

  /** `pat` does not occur in `s` at or after `from`. */
  ghost predicate NoneFrom(s: string, pat: string, from: nat) {
    forall j :: from <= j ==> !MatchesAt(s, pat, j)
  }

  /** `s.includes(pat, from)`: `pat` occurs at some index at or after `from`. */
  predicate Includes(s: string, pat: string, from: nat) {
    IndexOf(s, pat, from).Some?
  }

  /** `s.includes(pat)`. */
  predicate Contains(s: string, pat: string) {
    Includes(s, pat, 0)
  }

  /** Includes is exactly "some occurrence at or after `from`". */
  lemma IncludesIff(s: string, pat: string, from: nat, j: nat)
    requires from <= j && MatchesAt(s, pat, j)
    ensures Includes(s, pat, from)
  {
    IndexOfSpec(s, pat, from);
  }

  /** An occurrence in `s` is still an occurrence after anything is appended. */
  lemma MatchesAtExtend(s: string, t: string, pat: string, j: nat)
    requires MatchesAt(s, pat, j)
    ensures MatchesAt(s + t, pat, j)
  {
    assert (s + t)[j..j + |pat|] == s[j..j + |pat|];
  }

  /** An occurrence in `s + t` that lies wholly inside `s` is an occurrence in `s`. */
  lemma MatchesAtShrink(s: string, t: string, pat: string, j: nat)
    requires MatchesAt(s + t, pat, j) && j + |pat| <= |s|
    ensures MatchesAt(s, pat, j)
  {
    assert (s + t)[j..j + |pat|] == s[j..j + |pat|];
  }

  /** An occurrence of `pat` is an occurrence of each of its prefixes. */
  lemma MatchesAtPrefix(s: string, pat: string, pre: string, j: nat)
    requires MatchesAt(s, pat, j) && pre <= pat
    ensures MatchesAt(s, pre, j)
  {
    assert s[j..j + |pre|] == s[j..j + |pat|][..|pre|];
  }

  /**
   * A search that succeeds in `s` gives the same index in any extension of
   * `s`: appending text never moves an occurrence that is already complete.
   */
  lemma IndexOfExtend(s: string, t: string, pat: string, from: nat)
    requires IndexOf(s, pat, from).Some?
    ensures IndexOf(s + t, pat, from) == IndexOf(s, pat, from)
  {
    var i := IndexOf(s, pat, from).value;
    IndexOfSpec(s, pat, from);
    MatchesAtExtend(s, t, pat, i);
    forall j | from <= j < i
      ensures !MatchesAt(s + t, pat, j)
    {
      if MatchesAt(s + t, pat, j) {
        MatchesAtShrink(s, t, pat, j);
      }
    }
    IndexOfIs(s + t, pat, from, i);
  }

  /** A later search cannot succeed where an earlier one from further left failed. */
  lemma IndexOfMissingLater(s: string, pat: string, from: nat, later: nat)
    requires IndexOf(s, pat, from).None? && from <= later
    ensures IndexOf(s, pat, later).None?
  {
    IndexOfSpec(s, pat, from);
    IndexOfIsNone(s, pat, later);
  }

  /** Once a search from `from` fails, every search from further right fails too. */
  lemma IndexOfMissingAll(s: string, pat: string, from: nat)
    requires IndexOf(s, pat, from).None?
    ensures forall later :: from <= later ==> IndexOf(s, pat, later).None?
  {
    forall later | from <= later
      ensures IndexOf(s, pat, later).None?
    {
      IndexOfMissingLater(s, pat, from, later);
    }
  }

  /** An occurrence inside the slice `s[a..b]` is an occurrence in `s`, shifted by `a`. */
  lemma MatchesAtSlice(s: string, a: nat, b: nat, pat: string, j: nat)
    requires a <= b <= |s| && MatchesAt(s[a..b], pat, j)
    ensures MatchesAt(s, pat, a + j)
  {
    var inner := s[a..b][j..j + |pat|];
    assert forall k :: 0 <= k < |pat| ==> inner[k] == s[a + j + k];
    assert inner == s[a + j..a + j + |pat|];
  }

  /** Occurrences in `b` are exactly the occurrences in `a + b` past `a`. */
  lemma MatchesAtShift(a: string, b: string, pat: string, j: nat)
    ensures MatchesAt(a + b, pat, |a| + j) <==> MatchesAt(b, pat, j)
  {
    if |a| + j + |pat| <= |a + b| {
      assert (a + b)[|a| + j..|a| + j + |pat|] == b[j..j + |pat|];
    }
  }

  /** An occurrence fixes every character it covers. */
  lemma MatchesAtChar(s: string, pat: string, j: nat, k: nat)
    requires MatchesAt(s, pat, j) && k < |pat|
    ensures s[j + k] == pat[k]
  {
    assert s[j..j + |pat|][k] == s[j + k];
  }
}
