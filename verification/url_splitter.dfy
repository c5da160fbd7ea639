/**
 * Splitting a URL into the server address handed to the HTTP client and the
 * path requested from it: the boundary is the third '/' of the URL
 * (the two of `scheme://` and the one that starts the path).
 */
module UrlSplitter {

  /** Number of '/' characters in `s`. */
  function SlashCount(s: string): nat
  {
    if s == [] then 0
    else SlashCount(s[..|s| - 1]) + (if s[|s| - 1] == '/' then 1 else 0)
  }

  /** Counting one more character of a prefix adds one exactly when that character is a '/'. */
  lemma SlashCountStep(s: string, i: nat)
    requires i < |s|
    ensures SlashCount(s[..i + 1]) == SlashCount(s[..i]) + (if s[i] == '/' then 1 else 0)
  {
    assert s[..i + 1][..i] == s[..i];
  }

  /** Longer prefixes never hold fewer slashes. */
  lemma {:induction false} SlashCountMonotone(s: string, i: nat, j: nat)
    requires i <= j <= |s|
    ensures SlashCount(s[..i]) <= SlashCount(s[..j])
    ensures j == |s| ==> SlashCount(s[..j]) == SlashCount(s)
    decreases j - i
  {
    assert s[..|s|] == s;
    if i < j {
      SlashCountStep(s, i);
      SlashCountMonotone(s, i + 1, j);
    }
  }

  /**
   * `r` is the split point of `url`: either the index of its third '/', or
   * `|url|` when the URL holds fewer than three.
   */
  predicate IsPathSep(url: string, r: nat)
  {
    r <= |url| &&
    if r < |url| then url[r] == '/' && SlashCount(url[..r]) == 2
    else SlashCount(url) < 3
  }

  /** A URL with at least three slashes has an index holding its third one. */
  lemma {:induction false} ThirdSlashExists(s: string)
    requires SlashCount(s) >= 3
    ensures exists r: nat :: r < |s| && s[r] == '/' && SlashCount(s[..r]) == 2
  {
    var init := s[..|s| - 1];
    assert s[..|s| - 1] == init;
    if SlashCount(init) >= 3 {
      ThirdSlashExists(init);
      var r: nat :| r < |init| && init[r] == '/' && SlashCount(init[..r]) == 2;
      assert init[..r] == s[..r];
      assert s[r] == '/' && SlashCount(s[..r]) == 2;
    } else {
      assert s[|s| - 1] == '/' && SlashCount(init) == 2;
      assert s[..|s| - 1] == init;
    }
  }

  /** Every URL has a split point. */
  lemma PathSepExists(url: string)
    ensures exists r: nat :: IsPathSep(url, r)
  {
    if SlashCount(url) >= 3 {
      ThirdSlashExists(url);
      var r: nat :| r < |url| && url[r] == '/' && SlashCount(url[..r]) == 2;
      assert IsPathSep(url, r);
    } else {
      assert url[..|url|] == url;
      assert IsPathSep(url, |url|);
    }
  }

  /** No split point lies before another one. */
  lemma {:induction false} PathSepNotBefore(url: string, a: nat, b: nat)
    requires IsPathSep(url, a) && IsPathSep(url, b) && a <= b
    ensures a == b
  {
    if a < b {
      SlashCountStep(url, a);
      SlashCountMonotone(url, a + 1, b);
    }
  }

  /** The split point is unique. */
  lemma PathSepUnique(url: string, a: nat, b: nat)
    requires IsPathSep(url, a) && IsPathSep(url, b)
    ensures a == b
  {
    if a <= b {
      PathSepNotBefore(url, a, b);
    } else {
      PathSepNotBefore(url, b, a);
    }
  }

  /** The split point of `url`, as a value (the one `GetPathSepIndex` computes). */
  ghost function PathSep(url: string): (r: nat)
    ensures IsPathSep(url, r)
  {
    PathSepExists(url);
    var r: nat :| IsPathSep(url, r); r
  }

  /**
   * `GetPathSepIndex` (main.cpp): scans the URL counting slashes and stops at
   * the third one; without three slashes the scan runs off the end.
   */
  method GetPathSepIndex(url: string) returns (r: nat)
    ensures IsPathSep(url, r)
    ensures r == PathSep(url)
  {
    var sep := 0;
    var i := 0;
    while i < |url|
      invariant i <= |url|
      invariant sep == SlashCount(url[..i]) && sep < 3
    {
      SlashCountStep(url, i);
      if url[i] == '/' {
        sep := sep + 1;
      }
      if sep == 3 {
        PathSepUnique(url, i, PathSep(url));
        return i;
      }
      i := i + 1;
    }
    assert url[..i] == url;
    PathSepUnique(url, i, PathSep(url));
    return i;
  }

  /** The split point falls inside the URL exactly when the URL holds three slashes. */
  lemma {:induction false} PathSepInside(url: string, r: nat)
    requires IsPathSep(url, r)
    ensures r < |url| <==> SlashCount(url) >= 3
  {
    if r < |url| {
      SlashCountStep(url, r);
      SlashCountMonotone(url, r + 1, |url|);
      assert url[..|url|] == url;
    }
  }

  /**
   * The server address and path `Request` sends: the text before the split
   * point and the text from it onwards.
   */
  ghost function SplitUrl(url: string): (string, string)
  {
    var r := PathSep(url);
    (url[..r], url[r..])
  }

  /**
   * The two parts put back together give the URL; with three slashes the
   * server address holds exactly two of them and the path starts with the
   * third, and with fewer the path is empty.
   */
  lemma SplitUrlSpec(url: string)
    ensures SplitUrl(url).0 + SplitUrl(url).1 == url
    ensures SlashCount(url) >= 3 ==>
      |SplitUrl(url).1| > 0 && SplitUrl(url).1[0] == '/' && SlashCount(SplitUrl(url).0) == 2
    ensures SlashCount(url) < 3 ==> SplitUrl(url) == (url, "")
  {
    var r := PathSep(url);
    PathSepInside(url, r);
    assert url[..r] + url[r..] == url;
    assert SlashCount(url) < 3 ==> url[..r] == url;
  }
}
