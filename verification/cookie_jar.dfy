/**
 * Cookie handling in main.cpp: `AddCookie` parses one `Set-Cookie` value
 * into a `std::map<string, string>`, and `MakeCookieValue` renders the map
 * as the value of a `Cookie` request header, walking it in key order.
 */
module CookieJar {
  import opened Wrappers
  import opened StdString

  /** The cookie map: name to value, names unique. */
  type Jar = map<string, string>

  // ---------------------------------------------------------------------------
  // Key order of std::map<string, string>: lexicographic by character code.
  // ---------------------------------------------------------------------------

  /** `a` sorts strictly before `b` (std::string's operator<). */
  predicate Below(a: string, b: string)
  {
    if a == [] then b != []
    else if b == [] then false
    else if a[0] != b[0] then a[0] < b[0]
    else Below(a[1..], b[1..])
  }

  lemma {:induction false} BelowIrreflexive(a: string)
    ensures !Below(a, a)
  {
    if a != [] {
      BelowIrreflexive(a[1..]);
    }
  }

  lemma {:induction false} BelowTransitive(a: string, b: string, c: string)
    requires Below(a, b) && Below(b, c)
    ensures Below(a, c)
  {
    if a != [] && b != [] && c != [] && a[0] == b[0] && b[0] == c[0] {
      BelowTransitive(a[1..], b[1..], c[1..]);
    }
  }

  lemma {:induction false} BelowTotal(a: string, b: string)
    ensures a == b || Below(a, b) || Below(b, a)
  {
    if a != [] && b != [] && a[0] == b[0] {
      BelowTotal(a[1..], b[1..]);
      if a[1..] == b[1..] {
        assert a == [a[0]] + a[1..] && b == [b[0]] + b[1..];
      }
    }
  }

  /** `m` is the smallest key of `keys`. */
  predicate IsLeast(m: string, keys: set<string>)
  {
    m in keys && forall x :: x in keys && x != m ==> Below(m, x)
  }

  lemma {:induction false} LeastExists(keys: set<string>)
    requires keys != {}
    ensures exists m :: IsLeast(m, keys)
    decreases |keys|
  {
    var x :| x in keys;
    var rest := keys - {x};
    if rest == {} {
      assert keys == {x};
      assert IsLeast(x, keys);
    } else {
      LeastExists(rest);
      var m :| IsLeast(m, rest);
      BelowTotal(m, x);
      if Below(m, x) {
        assert IsLeast(m, keys);
      } else {
        forall y | y in keys && y != x
          ensures Below(x, y)
        {
          if y != m {
            BelowTransitive(x, m, y);
          }
        }
        assert IsLeast(x, keys);
      }
    }
  }

  lemma LeastUnique(a: string, b: string, keys: set<string>)
    requires IsLeast(a, keys) && IsLeast(b, keys)
    ensures a == b
  {
    if a != b {
      BelowTransitive(a, b, a);
      BelowIrreflexive(a);
    }
  }

  ghost function Least(keys: set<string>): (m: string)
    requires keys != {}
    ensures IsLeast(m, keys)
  {
    LeastExists(keys);
    var m :| IsLeast(m, keys); m
  }

  /** The keys of a map in the order std::map iterates them: ascending, each once. */
  ghost function SortedKeys(keys: set<string>): (ks: seq<string>)
    ensures |ks| == |keys|
    ensures forall k :: k in ks <==> k in keys
    ensures forall i, j :: 0 <= i < j < |ks| ==> Below(ks[i], ks[j])
    decreases |keys|
  {
    if keys == {} then []
    else
      var m := Least(keys);
      [m] + SortedKeys(keys - {m})
  }

  /** The text `MakeCookieValue` writes for one entry. */
  function Entry(name: string, value: string): string
  {
    name + "=" + value + "; "
  }

  /** `key=value; ` for each key of `keys`, in that order. */
  function Render(keys: seq<string>, jar: Jar): string
    requires forall k :: k in keys ==> k in jar
  {
    if keys == [] then ""
    else Entry(keys[0], jar[keys[0]]) + Render(keys[1..], jar)
  }

  /** A rendering is empty exactly when no key is rendered. */
  lemma RenderEmptyIff(keys: seq<string>, jar: Jar)
    requires forall k :: k in keys ==> k in jar
    ensures Render(keys, jar) == "" <==> keys == []
  {
    if keys != [] {
      assert |Entry(keys[0], jar[keys[0]])| >= 3;
    }
  }

  /** Rendering the keys of a map in order starts with its smallest key. */
  lemma RenderLeastFirst(rest: set<string>, jar: Jar, k: string)
    requires rest <= jar.Keys && IsLeast(k, rest)
    ensures Render(SortedKeys(rest), jar) == Entry(k, jar[k]) + Render(SortedKeys(rest - {k}), jar)
  {
    LeastUnique(k, Least(rest), rest);
    var tail := SortedKeys(rest - {k});
    assert SortedKeys(rest) == [k] + tail;
    assert ([k] + tail)[1..] == tail;
  }

  /** One round of the rendering loop: the smallest remaining key moves from the rest to the text written. */
  lemma RenderStep(header: string, rest: set<string>, jar: Jar, k: string)
    requires rest <= jar.Keys && IsLeast(k, rest)
    ensures header + Render(SortedKeys(rest), jar)
         == (header + Entry(k, jar[k])) + Render(SortedKeys(rest - {k}), jar)
  {
    RenderLeastFirst(rest, jar, k);
  }

  /**
   * `MakeCookieValue` (main.cpp): walks the map in key order, appending
   * `key=value; ` per entry; an empty map gives the empty string.
   */
  method MakeCookieValue(cookies: Jar) returns (header: string)
    ensures header == Render(SortedKeys(cookies.Keys), cookies)
    ensures header == "" <==> cookies == map[]
  {
    header := "";
    var rest := cookies.Keys;
    while rest != {}
      invariant rest <= cookies.Keys
      invariant header + Render(SortedKeys(rest), cookies) == Render(SortedKeys(cookies.Keys), cookies)
      decreases |rest|
    {
      LeastExists(rest);
      var k :| k in rest && IsLeast(k, rest);
      RenderStep(header, rest, cookies, k);
      header := header + Entry(k, cookies[k]);
      rest := rest - {k};
    }
    RenderEmptyIff(SortedKeys(cookies.Keys), cookies);
    assert cookies == map[] <==> cookies.Keys == {};
  }

  // ---------------------------------------------------------------------------
  // Parsing one Set-Cookie value.
  // ---------------------------------------------------------------------------

  /** Index just past the first ';' search: the first ';' or the end of the value. */
  function SemicolonPos(headerValue: string): nat
  {
    match Find(headerValue, ";", 0)
    case None => |headerValue|
    case Some(p) => p
  }

  /**
   * The (name, value) pair `AddCookie` takes from one `Set-Cookie` value, or
   * nothing when the value has no '=' or its first '=' comes after its first ';'.
   */
  function ParseSetCookie(headerValue: string): Option<(string, string)>
  {
    match Find(headerValue, "=", 0)
    case None => None
    case Some(equalPos) =>
      var semicolonPos := SemicolonPos(headerValue);
      if equalPos > semicolonPos then None
      else
        SeparatorsDistinct(headerValue, equalPos);
        Some((headerValue[..equalPos], headerValue[equalPos + 1..semicolonPos]))
  }

  /** The first '=' and the first ';' (or the end) are never at the same index. */
  lemma SeparatorsDistinct(headerValue: string, equalPos: nat)
    requires Find(headerValue, "=", 0) == Some(equalPos)
    ensures equalPos != SemicolonPos(headerValue)
  {
    FindSpec(headerValue, "=", 0);
    FindSpec(headerValue, ";", 0);
    assert headerValue[equalPos..equalPos + 1] == "=";
  }

  /**
   * What `ParseSetCookie` accepts and what it takes: a value is accepted
   * exactly when some '=' has no ';' before it; the name is then the text
   * before the first '=' and the value the text after it up to the first ';'
   * or the end.
   */
  lemma ParseSetCookieSpec(headerValue: string)
    ensures ParseSetCookie(headerValue).Some? <==>
      exists e :: 0 <= e < |headerValue| && headerValue[e] == '=' && ';' !in headerValue[..e]
    ensures ParseSetCookie(headerValue).Some? ==>
      var (name, value) := ParseSetCookie(headerValue).value;
      && |name| + 1 + |value| <= |headerValue|
      && headerValue[..|name| + 1] == name + "="
      && '=' !in name && ';' !in name
      && headerValue[|name| + 1..|name| + 1 + |value|] == value
      && ';' !in value
      && (|name| + 1 + |value| == |headerValue| || headerValue[|name| + 1 + |value|] == ';')
  {
    FindSpec(headerValue, "=", 0);
    FindSpec(headerValue, ";", 0);
    match Find(headerValue, "=", 0)
    case None =>
      assert forall e :: 0 <= e < |headerValue| && headerValue[e] == '=' ==> OccursAt(headerValue, "=", e);
    case Some(equalPos) =>
      var semicolonPos := SemicolonPos(headerValue);
      forall j | 0 <= j < semicolonPos && j < |headerValue|
        ensures headerValue[j] != ';'
      {
        assert !OccursAt(headerValue, ";", j);
      }
      forall j | 0 <= j < equalPos
        ensures headerValue[j] != '='
      {
        assert !OccursAt(headerValue, "=", j);
      }
      assert headerValue[equalPos..equalPos + 1] == "=";
      if equalPos > semicolonPos {
        assert headerValue[semicolonPos..semicolonPos + 1] == ";";
        forall e | 0 <= e < |headerValue| && headerValue[e] == '='
          ensures ';' in headerValue[..e]
        {
          assert e >= equalPos;
          assert headerValue[..e][semicolonPos] == ';';
        }
      } else {
        assert ';' !in headerValue[..equalPos];
        var name := headerValue[..equalPos];
        assert headerValue[..|name| + 1] == name + "=";
        if semicolonPos < |headerValue| {
          assert headerValue[semicolonPos..semicolonPos + 1] == ";";
        }
      }
  }

  /**
   * `AddCookie` (main.cpp): inserts the parsed pair with `map::insert`, which
   * leaves an existing entry for the same name in place.
   */
  function AddCookie(headerValue: string, cookies: Jar): Jar
  {
    match ParseSetCookie(headerValue)
    case None => cookies
    case Some((name, value)) => if name in cookies then cookies else cookies[name := value]
  }

  /**
   * `AddCookie` never overwrites: existing entries stay as they are; a
   * malformed value or an already-present name leaves the map unchanged;
   * otherwise exactly the parsed entry is added.
   */
  lemma AddCookieSpec(headerValue: string, cookies: Jar)
    ensures var r := AddCookie(headerValue, cookies);
      && (forall n :: n in cookies ==> n in r && r[n] == cookies[n])
      && (ParseSetCookie(headerValue).None? ==> r == cookies)
      && (ParseSetCookie(headerValue).Some? ==>
            var (name, value) := ParseSetCookie(headerValue).value;
            && r.Keys == cookies.Keys + {name}
            && (name in cookies ==> r == cookies)
            && (name !in cookies ==> r == cookies[name := value]))
  {
  }

  /** The map after `AddCookie` has been applied to each value, in order. */
  function MergeSetCookies(cookies: Jar, values: seq<string>): Jar
  {
    if values == [] then cookies
    else AddCookie(values[|values| - 1], MergeSetCookies(cookies, values[..|values| - 1]))
  }

  /** Merging one more value is one more `AddCookie`. */
  lemma MergeSetCookiesStep(cookies: Jar, values: seq<string>, i: nat)
    requires i < |values|
    ensures MergeSetCookies(cookies, values[..i + 1]) == AddCookie(values[i], MergeSetCookies(cookies, values[..i]))
  {
    assert values[..i + 1][..i] == values[..i];
  }

  /** Names of the well-formed values among `values`. */
  ghost function ParsedNames(values: seq<string>): set<string>
  {
    set i | 0 <= i < |values| && ParseSetCookie(values[i]).Some? :: ParseSetCookie(values[i]).value.0
  }

  /**
   * Merging keeps every entry already in the map, and adds exactly the names
   * of the well-formed values.
   */
  lemma {:induction false} MergeSetCookiesKeys(cookies: Jar, values: seq<string>)
    ensures MergeSetCookies(cookies, values).Keys == cookies.Keys + ParsedNames(values)
    ensures forall n :: n in cookies ==> MergeSetCookies(cookies, values)[n] == cookies[n]
  {
    if values != [] {
      var init := values[..|values| - 1];
      MergeSetCookiesKeys(cookies, init);
      assert forall i :: 0 <= i < |init| ==> init[i] == values[i];
      var last := values[|values| - 1];
      AddCookieSpec(last, MergeSetCookies(cookies, init));
      if ParseSetCookie(last).Some? {
        assert ParsedNames(values) == ParsedNames(init) + {ParseSetCookie(last).value.0};
      } else {
        assert ParsedNames(values) == ParsedNames(init);
      }
    }
  }

  /**
   * For a name not yet in the map, the value that ends up stored is the one of
   * the first well-formed `Set-Cookie` value carrying that name.
   */
  lemma {:induction false} MergeSetCookiesFirstWins(cookies: Jar, values: seq<string>, i: nat, name: string, value: string)
    requires i < |values| && ParseSetCookie(values[i]) == Some((name, value))
    requires name !in cookies
    requires forall j :: 0 <= j < i ==> ParseSetCookie(values[j]).None? || ParseSetCookie(values[j]).value.0 != name
    ensures name in MergeSetCookies(cookies, values) && MergeSetCookies(cookies, values)[name] == value
  {
    var init := values[..|values| - 1];
    assert forall j :: 0 <= j < |init| ==> init[j] == values[j];
    AddCookieSpec(values[|values| - 1], MergeSetCookies(cookies, init));
    if i == |values| - 1 {
      MergeSetCookiesKeys(cookies, init);
      assert name !in ParsedNames(init);
    } else {
      MergeSetCookiesFirstWins(cookies, init, i, name, value);
    }
  }
}
