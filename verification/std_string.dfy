/**
 * The few `std::string` operations the patcher relies on, with the library's
 * semantics: `find` returns the first match at or after a start index (or
 * `npos`, here `None`), and `find_first_not_of` returns the first character
 * outside a set of characters.
 */
module StdString {
  import opened Wrappers

  /** `pat` occurs in `s` starting at index `i`. */
  predicate OccursAt(s: string, pat: string, i: nat)
  {
    i + |pat| <= |s| && s[i..i + |pat|] == pat
  }

  /** `pat` occurs somewhere in `s`. */
  predicate Contains(s: string, pat: string)
  {
    exists i: nat :: i <= |s| && OccursAt(s, pat, i)
  }

  /** `s.find(pat, from)`: the first index at or after `from` where `pat` occurs (see `FindSpec`). */
  function Find(s: string, pat: string, from: nat): (r: Option<nat>)
    ensures r.Some? ==> from <= r.value && r.value + |pat| <= |s|
    decreases |s| - from
  {
    if from + |pat| > |s| then None
    else if s[from..from + |pat|] == pat then Some(from)
    else Find(s, pat, from + 1)
  }

  /**
   * `Find` returns the first occurrence at or after `from`, and `None` only
   * when there is no occurrence there.
   */
  lemma {:induction false} FindSpec(s: string, pat: string, from: nat)
    ensures Find(s, pat, from).Some? ==>
      && OccursAt(s, pat, Find(s, pat, from).value)
      && forall j: nat :: from <= j < Find(s, pat, from).value ==> !OccursAt(s, pat, j)
    ensures Find(s, pat, from).None? ==> forall j: nat :: from <= j ==> !OccursAt(s, pat, j)
    decreases |s| - from
  {
    if from + |pat| <= |s| && s[from..from + |pat|] != pat {
      FindSpec(s, pat, from + 1);
    }
  }

  /** A position `Find` returns is an occurrence (the part of `FindSpec` most callers need). */
  lemma {:induction false} FindFound(s: string, pat: string, from: nat)
    requires Find(s, pat, from).Some?
    ensures OccursAt(s, pat, Find(s, pat, from).value)
    decreases |s| - from
  {
    if s[from..from + |pat|] != pat {
      FindFound(s, pat, from + 1);
    }
  }

  /** A search from the start finds nothing exactly when the pattern does not occur. */
  lemma FindNoneIff(s: string, pat: string)
    ensures Find(s, pat, 0).None? <==> !Contains(s, pat)
  {
    FindSpec(s, pat, 0);
    if Find(s, pat, 0).Some? {
      assert OccursAt(s, pat, Find(s, pat, 0).value);
    }
  }

  /** `s.find_first_not_of(chars, from)`: the first index at or after `from` holding a character not in `chars` (see `FindFirstNotOfSpec`). */
  function FindFirstNotOf(s: string, chars: string, from: nat): (r: Option<nat>)
    ensures r.Some? ==> from <= r.value < |s|
    decreases |s| - from
  {
    if from >= |s| then None
    else if s[from] !in chars then Some(from)
    else FindFirstNotOf(s, chars, from + 1)
  }

  /**
   * `FindFirstNotOf` returns the first index at or after `from` whose
   * character is outside `chars`, and `None` only when there is none.
   */
  lemma {:induction false} FindFirstNotOfSpec(s: string, chars: string, from: nat)
    ensures FindFirstNotOf(s, chars, from).Some? ==>
      && s[FindFirstNotOf(s, chars, from).value] !in chars
      && forall j :: from <= j < FindFirstNotOf(s, chars, from).value ==> s[j] in chars
    ensures FindFirstNotOf(s, chars, from).None? ==> forall j :: from <= j < |s| ==> s[j] in chars
    decreases |s| - from
  {
    if from < |s| && s[from] in chars {
      FindFirstNotOfSpec(s, chars, from + 1);
    }
  }
}
