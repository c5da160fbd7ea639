/**
 * `Replace` (main.cpp): substitute `to` for the first occurrence of `from`
 * and search again from the start, until `from` no longer occurs.
 */
module Substitution {
  import opened Wrappers
  import opened StdString

  /**
   * The string `Replace` arrives at. Because every round shortens the string
   * (`to` is shorter than `from`), the rewriting ends.
   */
  function ReplaceAll(s: string, from: string, to: string): (r: string)
    requires |to| < |from|
    decreases |s|
  {
    match Find(s, from, 0)
    case None => s
    case Some(p) => ReplaceAll(s[..p] + to + s[p + |from|..], from, to)
  }

  /** The rewriting leaves no occurrence of `from` and never lengthens the string. */
  lemma {:induction false} ReplaceAllSpec(s: string, from: string, to: string)
    requires |to| < |from|
    ensures !Contains(ReplaceAll(s, from, to), from)
    ensures |ReplaceAll(s, from, to)| <= |s|
    decreases |s|
  {
    match Find(s, from, 0)
    case None =>
      FindNoneIff(s, from);
    case Some(p) =>
      ReplaceAllSpec(s[..p] + to + s[p + |from|..], from, to);
  }

  /** A string that does not contain `from` comes back unchanged. */
  lemma ReplaceAllNoMatch(s: string, from: string, to: string)
    requires |to| < |from| && !Contains(s, from)
    ensures ReplaceAll(s, from, to) == s
  {
    FindNoneIff(s, from);
  }

  /**
   * A head of `s` in which the first character of `from` never appears is
   * left in place: no occurrence can start there, before or after a rewrite.
   */
  lemma {:induction false} ReplaceAllKeepsHead(s: string, from: string, to: string, k: nat)
    requires |to| < |from| && k <= |s|
    requires forall j :: 0 <= j < k ==> s[j] != from[0]
    ensures k <= |ReplaceAll(s, from, to)| && ReplaceAll(s, from, to)[..k] == s[..k]
    decreases |s|
  {
    FindSpec(s, from, 0);
    match Find(s, from, 0)
    case None =>
    case Some(p) =>
      assert s[p..p + |from|][0] == from[0];
      var t := s[..p] + to + s[p + |from|..];
      assert p >= k;
      assert t[..k] == s[..k];
      ReplaceAllKeepsHead(t, from, to, k);
  }

  /** `t` is `s` with its first occurrence of `from` replaced by `to`: one round of `Replace`. */
  ghost predicate RewritesOnce(s: string, t: string, from: string, to: string)
  {
    match Find(s, from, 0)
    case None => false
    case Some(p) => t == s[..p] + to + s[p + |from|..]
  }

  /** Each string of `trace` is the previous one after one round. */
  ghost predicate IsRewriting(trace: seq<string>, from: string, to: string)
  {
    forall i :: 0 <= i < |trace| - 1 ==> RewritesOnce(trace[i], trace[i + 1], from, to)
  }

  /**
   * Rounds do not change where the rewriting ends, and never lengthen the
   * string: every string of a trace rewrites to the same result as the first.
   */
  lemma {:induction false} RewritingKeepsEnd(trace: seq<string>, from: string, to: string)
    requires |to| < |from| && |trace| > 0 && IsRewriting(trace, from, to)
    ensures ReplaceAll(trace[0], from, to) == ReplaceAll(trace[|trace| - 1], from, to)
    ensures |trace[|trace| - 1]| <= |trace[0]|
    decreases |trace|
  {
    if |trace| > 1 {
      assert RewritesOnce(trace[0], trace[1], from, to);
      assert IsRewriting(trace[1..], from, to) by {
        forall i | 0 <= i < |trace[1..]| - 1
          ensures RewritesOnce(trace[1..][i], trace[1..][i + 1], from, to)
        {
          assert RewritesOnce(trace[i + 1], trace[i + 2], from, to);
        }
      }
      RewritingKeepsEnd(trace[1..], from, to);
    }
  }

  /** `Replace` (main.cpp): rewrite `ret` while `from` can still be found in it. */
  method Replace(src: string, from: string, to: string) returns (ret: string)
    requires |to| < |from|
    ensures ret == ReplaceAll(src, from, to)
    ensures !Contains(ret, from) && |ret| <= |src|
  {
    ret := src;
    ghost var trace := [src];
    var pos := Find(ret, from, 0);
    while pos.Some?
      invariant pos == Find(ret, from, 0)
      invariant |trace| > 0 && trace[0] == src && trace[|trace| - 1] == ret
      invariant IsRewriting(trace, from, to)
      decreases |ret|
    {
      var next := ret[..pos.value] + to + ret[pos.value + |from|..];
      assert RewritesOnce(ret, next, from, to);
      trace := trace + [next];
      ret := next;
      pos := Find(ret, from, 0);
    }
    RewritingKeepsEnd(trace, from, to);
    FindNoneIff(ret, from);
  }
}
