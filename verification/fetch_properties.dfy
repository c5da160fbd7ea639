/**
 * What the fetch chain of `Request` guarantees, proved about its
 * specification `Fetch`: first for `Chain` over any hop function, then for
 * the hop function of a transport.
 */
module FetchProperties {
  import opened Wrappers
  import opened StdString
  import opened UrlSplitter
  import opened Substitution
  import opened CookieJar
  import opened Fetcher

  // ---------------------------------------------------------------------
  // The chain over any hop function
  // ---------------------------------------------------------------------

  /** A chain started at counter `n` makes at most `5 - n` hops (none once `n >= 5`). */
  lemma {:induction false} ChainHopBound(step: Stepper, url: string, jar: Jar, n: int)
    ensures |Chain(step, url, jar, n).hops| <= if n >= MaxHops then 0 else MaxHops - n
    decreases MaxHops - n
  {
    if n + 1 <= MaxHops {
      match step(url, jar)
      case None =>
      case Some(Stop(_, _)) =>
      case Some(Follow(next, nextJar)) =>
        ChainHopBound(step, next, nextJar, n + 1);
    }
  }

  /**
   * A hop function that sends every hop for `url` back to `url` makes the
   * chain fail after exactly `5 - n` hops, all of them for `url`, with
   * nothing written.
   */
  lemma {:induction false} ChainSelfLoop(step: Stepper, url: string, jar: Jar, n: int)
    requires n <= MaxHops
    requires forall j: Jar :: step(url, j).Some? && step(url, j).value.Follow? && step(url, j).value.url == url
    ensures !Chain(step, url, jar, n).ok && Chain(step, url, jar, n).written == ""
    ensures |Chain(step, url, jar, n).hops| == MaxHops - n
    ensures forall h :: h in Chain(step, url, jar, n).hops ==> h.url == url
    decreases MaxHops - n
  {
    if n < MaxHops {
      ChainSelfLoop(step, url, step(url, jar).value.jar, n + 1);
    }
  }

  /**
   * `o` ended either in a failure that wrote nothing, or with the Stop its
   * last hop's function returned.
   */
  ghost predicate EndsByStep(step: Stepper, o: Outcome)
  {
    || (!o.ok && o.written == "")
    || (|o.hops| > 0 && step(o.hops[|o.hops| - 1].url, o.hops[|o.hops| - 1].jar) == Some(Stop(o.ok, o.written)))
  }

  /** Every chain ends in a failure that writes nothing, or exactly as its last hop decided. */
  lemma {:induction false} ChainEndsByStep(step: Stepper, url: string, jar: Jar, n: int)
    ensures EndsByStep(step, Chain(step, url, jar, n))
    decreases MaxHops - n
  {
    if n + 1 <= MaxHops {
      match step(url, jar)
      case None =>
      case Some(Stop(_, _)) =>
      case Some(Follow(next, nextJar)) =>
        ChainEndsByStep(step, next, nextJar, n + 1);
        var rest := Chain(step, next, nextJar, n + 1);
        if |rest.hops| > 0 {
          assert ([Hop(url, jar)] + rest.hops)[|rest.hops|] == rest.hops[|rest.hops| - 1];
        }
    }
  }

  /** Below the bound a chain makes a hop, and its first hop is for the requested URL and map. */
  lemma ChainStarts(step: Stepper, url: string, jar: Jar, n: int)
    requires n < MaxHops
    ensures |Chain(step, url, jar, n).hops| > 0
    ensures Chain(step, url, jar, n).hops[0] == Hop(url, jar)
  {
  }

  /** `hops` starts from `hop0`, if it has any hop, and each hop's function follows on to the next. */
  ghost predicate IsChain(step: Stepper, hop0: Hop, hops: seq<Hop>)
  {
    && (|hops| > 0 ==> hops[0] == hop0)
    && forall i :: 0 <= i < |hops| - 1 ==>
         step(hops[i].url, hops[i].jar) == Some(Follow(hops[i + 1].url, hops[i + 1].jar))
  }

  lemma ThenIsChain(step: Stepper, hop: Hop, next: Hop, rest: seq<Hop>)
    requires IsChain(step, next, rest)
    requires |rest| > 0 ==> step(hop.url, hop.jar) == Some(Follow(next.url, next.jar))
    ensures IsChain(step, hop, [hop] + rest)
  {
    var hs := [hop] + rest;
    forall i | 0 <= i < |hs| - 1
      ensures step(hs[i].url, hs[i].jar) == Some(Follow(hs[i + 1].url, hs[i + 1].jar))
    {
      if i > 0 {
        assert hs[i] == rest[i - 1] && hs[i + 1] == rest[i];
      }
    }
  }

  /** The hops of a chain start with the requested URL and map, and each follows on to the next. */
  lemma {:induction false} ChainLinks(step: Stepper, url: string, jar: Jar, n: int)
    ensures IsChain(step, Hop(url, jar), Chain(step, url, jar, n).hops)
    decreases MaxHops - n
  {
    if n + 1 <= MaxHops {
      match step(url, jar)
      case None =>
      case Some(Stop(_, _)) =>
      case Some(Follow(next, nextJar)) =>
        ChainLinks(step, next, nextJar, n + 1);
        ThenIsChain(step, Hop(url, jar), Hop(next, nextJar), Chain(step, next, nextJar, n + 1).hops);
    }
  }

  // ---------------------------------------------------------------------
  // The chain of a transport
  // ---------------------------------------------------------------------

  /** The response a hop received, when it received one. */
  ghost function ResponseOf(net: Transport, hop: Hop): Option<Response>
  {
    net(Prepare(hop.url, hop.jar))
  }

  /** A chain started at counter `n` issues at most `5 - n` GETs (none once `n >= 5`). */
  lemma FetchHopBound(url: string, net: Transport, cookies: Jar, n: int)
    ensures |Fetch(url, net, cookies, n).hops| <= if n >= MaxHops then 0 else MaxHops - n
  {
    ChainHopBound(StepOf(net), url, cookies, n);
  }

  /** A chain started by `main`'s call (counter 0) issues at most five GETs. */
  lemma AtMostFiveGets(url: string, net: Transport)
    ensures |Fetch(url, net, map[], 0).hops| <= 5
  {
    FetchHopBound(url, net, map[], 0);
  }

  /**
   * A server that answers every request for `url` with a 302 back to `url`
   * makes the chain fail after exactly `5 - n` GETs, all of them for `url`,
   * without writing anything.
   */
  lemma RedirectLoopFails(url: string, net: Transport, cookies: Jar, n: int)
    requires url != "" && n <= MaxHops
    requires forall g: HttpGet :: g.server + g.path == url ==>
      net(g).Some? && net(g).value.status == 302 && net(g).value.location == url
    ensures !Fetch(url, net, cookies, n).ok && Fetch(url, net, cookies, n).written == ""
    ensures |Fetch(url, net, cookies, n).hops| == MaxHops - n
    ensures forall h :: h in Fetch(url, net, cookies, n).hops ==> h.url == url
  {
    var step := StepOf(net);
    forall j: Jar
      ensures step(url, j).Some? && step(url, j).value.Follow? && step(url, j).value.url == url
    {
      PrepareSpec(url, j);
    }
    ChainSelfLoop(step, url, cookies, n);
  }

  /** The chain of `main`: a 302 loop fails on the sixth invocation, after five GETs. */
  lemma RedirectLoopFromStart(url: string, net: Transport)
    requires url != ""
    requires forall g: HttpGet :: g.server + g.path == url ==>
      net(g).Some? && net(g).value.status == 302 && net(g).value.location == url
    ensures !Fetch(url, net, map[], 0).ok && |Fetch(url, net, map[], 0).hops| == 5
  {
    RedirectLoopFails(url, net, map[], 0);
  }

  /**
   * The outcomes of a single response: a 302 without `Location` and any
   * status other than 200 or 302 fail; a 302 with one follows it with the
   * merged map; a 200 emits the body unless it is a Drive confirm page.
   */
  lemma DecideOutcomes(url: string, res: Response, cookies: Jar)
    ensures res.status != 200 && res.status != 302 ==> Decide(url, res, cookies) == Stop(false, "")
    ensures res.status == 302 && res.location == "" ==> Decide(url, res, cookies) == Stop(false, "")
    ensures res.status == 302 && res.location != "" ==>
      Decide(url, res, cookies) == Follow(res.location, MergeSetCookies(cookies, res.setCookies))
    ensures res.status == 200 ==>
      (Decide(url, res, cookies) == Stop(true, res.body) <==>
        !IsDriveUrl(url) || ScrapeConfirmLink(res.body).None?)
  {
  }

  /** A hop ends the chain successfully only on a 200, with its body, and in failure with nothing written. */
  lemma DecideStop(url: string, res: Response, cookies: Jar)
    requires Decide(url, res, cookies).Stop?
    ensures var d := Decide(url, res, cookies);
      && (d.ok ==> res.status == 200 && d.written == res.body)
      && (!d.ok ==> d.written == "")
  {
  }

  /**
   * `o` writes nothing unless it succeeded, and a success writes exactly the
   * body of its last hop's response, which had status 200.
   */
  ghost predicate WritesFinalBody(net: Transport, o: Outcome)
  {
    && (!o.ok ==> o.written == "")
    && (o.ok ==>
          && |o.hops| > 0
          && ResponseOf(net, o.hops[|o.hops| - 1]).Some?
          && ResponseOf(net, o.hops[|o.hops| - 1]).value.status == 200
          && o.written == ResponseOf(net, o.hops[|o.hops| - 1]).value.body)
  }

  /** Output is written only on a terminal 200, and what is written is exactly its body. */
  lemma FetchWritesFinalBody(url: string, net: Transport, cookies: Jar, n: int)
    ensures WritesFinalBody(net, Fetch(url, net, cookies, n))
  {
    var step := StepOf(net);
    var o := Fetch(url, net, cookies, n);
    ChainEndsByStep(step, url, cookies, n);
    if o.ok || o.written != "" {
      var last := o.hops[|o.hops| - 1];
      assert Step(net, last.url, last.jar) == Some(Stop(o.ok, o.written));
      var res := ResponseOf(net, last).value;
      DecideStop(last.url, res, last.jar);
    }
  }

  /** Hop `next` follows hop `hop`: the decision on `hop`'s response is to ask for `next`. */
  ghost predicate Leads(net: Transport, hop: Hop, next: Hop)
  {
    Step(net, hop.url, hop.jar) == Some(Follow(next.url, next.jar))
  }

  /** The hops of a chain start with the requested URL and its map, and each leads to the next. */
  lemma FetchHopsChain(url: string, net: Transport, cookies: Jar, n: int)
    ensures var hs := Fetch(url, net, cookies, n).hops;
      && (|hs| > 0 ==> hs[0] == Hop(url, cookies))
      && forall i :: 0 <= i < |hs| - 1 ==> Leads(net, hs[i], hs[i + 1])
  {
    ChainLinks(StepOf(net), url, cookies, n);
  }

  /**
   * Each following hop receives the previous hop's map with the previous
   * response's `Set-Cookie` values merged in.
   */
  lemma LeadsCarriesCookies(net: Transport, hop: Hop, next: Hop)
    requires Leads(net, hop, next)
    ensures ResponseOf(net, hop).Some?
    ensures next.jar == MergeSetCookies(hop.jar, ResponseOf(net, hop).value.setCookies)
  {
  }

  /** Along a chain no cookie is dropped or changed: every later hop's map extends every earlier one's. */
  lemma {:induction false} FetchCookiesCarried(url: string, net: Transport, cookies: Jar, n: int, i: nat, j: nat)
    requires i <= j < |Fetch(url, net, cookies, n).hops|
    ensures var hs := Fetch(url, net, cookies, n).hops;
      forall k :: k in hs[i].jar ==> k in hs[j].jar && hs[j].jar[k] == hs[i].jar[k]
    decreases j - i
  {
    var hs := Fetch(url, net, cookies, n).hops;
    if i < j {
      FetchHopsChain(url, net, cookies, n);
      assert Leads(net, hs[i], hs[i + 1]);
      LeadsCarriesCookies(net, hs[i], hs[i + 1]);
      MergeSetCookiesKeys(hs[i].jar, ResponseOf(net, hs[i]).value.setCookies);
      FetchCookiesCarried(url, net, cookies, n, i + 1, j);
    }
  }

  // ---------------------------------------------------------------------
  // The Google Drive bypass
  // ---------------------------------------------------------------------

  /** The Drive test holds exactly when the marker occurs somewhere before index 6. */
  lemma IsDriveUrlIff(url: string)
    ensures IsDriveUrl(url) <==> exists i: nat :: i < 6 && OccursAt(url, DriveMarker, i)
  {
    FindSpec(url, DriveMarker, 0);
    match Find(url, DriveMarker, 0)
    case None =>
    case Some(p) =>
      assert OccursAt(url, DriveMarker, p);
  }

  /** Position `k` of an occurrence of `pat` holds `pat[k]`. */
  lemma OccursAtIndex(s: string, pat: string, p: nat, k: nat)
    requires OccursAt(s, pat, p) && k < |pat|
    ensures s[p + k] == pat[k]
  {
    assert s[p..p + |pat|][k] == s[p + k];
  }

  /** A slice whose first characters are those of `head` starts with `head`. */
  lemma SliceStartsWith(s: string, a: nat, b: nat, head: string)
    requires a + |head| <= b <= |s|
    requires forall k :: 0 <= k < |head| ==> s[a + k] == head[k]
    ensures head <= s[a..b]
  {
    forall k | 0 <= k < |head|
      ensures s[a..b][k] == head[k]
    {
      assert s[a..b][k] == s[a + k];
    }
  }

  /** The characters `skip` into an occurrence of `marker` are those of the marker. */
  lemma MarkerTail(body: string, marker: string, pos: nat, skip: nat, head: string)
    requires OccursAt(body, marker, pos)
    requires skip + |head| <= |marker| && head == marker[skip..skip + |head|]
    ensures forall k :: 0 <= k < |head| ==> body[pos + skip + k] == head[k]
  {
    forall k | 0 <= k < |head|
      ensures body[pos + skip + k] == head[k]
    {
      OccursAtIndex(body, marker, pos, skip + k);
    }
  }

  /** The search for '"' from `start` cannot stop on `n` characters known to be other than '"'. */
  lemma QuoteNotBefore(body: string, start: nat, n: nat)
    requires start + n <= |body| && forall j :: start <= j < start + n ==> body[j] != '"'
    ensures Find(body, "\"", start).Some? ==> Find(body, "\"", start).value >= start + n
  {
    if Find(body, "\"", start).Some? {
      var e := Find(body, "\"", start).value;
      FindFound(body, "\"", start);
      OccursAtIndex(body, "\"", e, 0);
    }
  }

  /**
   * When the marker continues after the skipped characters with `head`, a
   * text free of '"', the quoted text starts with `head`: the search for
   * the closing '"' cannot stop inside it.
   */
  lemma QuotedAfterHead(body: string, marker: string, skip: nat, head: string)
    requires skip + |head| <= |marker| && head == marker[skip..skip + |head|] && '"' !in head
    requires QuotedAfter(body, marker, skip).Some?
    ensures head <= QuotedAfter(body, marker, skip).value
  {
    FindFound(body, marker, 0);
    var pos := Find(body, marker, 0).value;
    var start := pos + skip;
    MarkerTail(body, marker, pos, skip, head);
    forall j | start <= j < start + |head|
      ensures body[j] != '"'
    {
      assert body[pos + skip + (j - start)] == head[j - start];
      assert head[j - start] in head;
    }
    QuoteNotBefore(body, start, |head|);
    var end := match Find(body, "\"", start) case None => |body| case Some(e) => e;
    SliceStartsWith(body, start, end, head);
  }

  /**
   * The quoted text in full: for the first occurrence `p` of the marker and
   * the first '"' at or after `p + skip` (or the end of the body when there
   * is none) at `e`, the text is `body[p + skip..e]`.
   */
  lemma QuotedAfterText(body: string, marker: string, skip: nat, p: nat, e: nat)
    requires skip <= |marker|
    requires OccursAt(body, marker, p) && forall q: nat :: q < p ==> !OccursAt(body, marker, q)
    requires p + skip <= e <= |body| && (e == |body| || body[e] == '"')
    requires forall j :: p + skip <= j < e ==> body[j] != '"'
    ensures QuotedAfter(body, marker, skip) == Some(body[p + skip..e])
  {
    FindSpec(body, marker, 0);
    assert Find(body, marker, 0) == Some(p);
    var start := p + skip;
    if e < |body| {
      assert OccursAt(body, "\"", e) by {
        assert body[e..e + 1] == [body[e]];
      }
    }
    FindSpec(body, "\"", start);
    match Find(body, "\"", start)
    case None =>
      assert e == |body|;
    case Some(v) =>
      OccursAtIndex(body, "\"", v, 0);
      assert v == e;
  }

  /** The Drive branch fires exactly when the URL passes the Drive test and the body holds the anchor. */
  lemma BypassLinkFires(url: string, body: string)
    ensures BypassLink(url, body).Some? <==> IsDriveUrl(url) && Contains(body, ConfirmHref)
  {
    FindNoneIff(body, ConfirmHref);
  }

  /**
   * The link of the Drive branch in full: for the anchor's first occurrence
   * `p` and the first '"' after its `href="` (or the end of the body) at
   * `e`, the link is `body[p + 6..e]` with every "&amp;" decoded, and no
   * "&amp;" is left in it.
   */
  lemma BypassLinkText(url: string, body: string, p: nat, e: nat)
    requires IsDriveUrl(url)
    requires OccursAt(body, ConfirmHref, p) && forall q: nat :: q < p ==> !OccursAt(body, ConfirmHref, q)
    requires p + HrefAttrLen <= e <= |body| && (e == |body| || body[e] == '"')
    requires forall j :: p + HrefAttrLen <= j < e ==> body[j] != '"'
    ensures BypassLink(url, body) == Some(ReplaceAll(body[p + HrefAttrLen..e], "&amp;", "&"))
    ensures !Contains(BypassLink(url, body).value, "&amp;")
  {
    QuotedAfterText(body, ConfirmHref, HrefAttrLen, p, e);
    ReplaceAllSpec(body[p + HrefAttrLen..e], "&amp;", "&");
  }

  /** A scraped Drive link starts with "/u", the anchor's first characters after `href="`. */
  lemma ScrapedLinkHead(body: string)
    requires ScrapeConfirmLink(body).Some?
    ensures "/u" <= ScrapeConfirmLink(body).value
  {
    assert ConfirmHref[HrefAttrLen] == '/' && ConfirmHref[HrefAttrLen + 1] == 'u';
    assert ConfirmHref[HrefAttrLen..HrefAttrLen + 2] == "/u";
    QuotedAfterHead(body, ConfirmHref, HrefAttrLen, "/u");
  }

  /**
   * The scheme test as written: a link whose first character is outside ":/"
   * has `find_first_not_of("://")` at 0, not at 4 or 5, so it is appended to
   * the server address. That holds for an absolute "http://" or "https://"
   * link too.
   */
  lemma AbsoluteLinkPrefixed(serverAddress: string, link: string)
    requires |link| > 0 && link[0] != ':' && link[0] != '/'
    ensures NextHopUrl(serverAddress, link) == serverAddress + link
  {
    assert link[0] !in "://";
    assert FindFirstNotOf(link, "://", 0) == Some(0);
  }

  /** A link starting with "/u" has its first character outside ":/" at index 1: it is appended to the server address. */
  lemma RelativeLinkNextHop(serverAddress: string, link: string)
    requires "/u" <= link
    ensures NextHopUrl(serverAddress, link) == serverAddress + link
  {
    assert link[0] == '/' && link[1] == 'u';
    assert FindFirstNotOf(link, "://", 1) == Some(1);
  }

  /**
   * A decoded Drive link starts with "/u", so the bypass hop goes to the
   * current server address followed by the link.
   */
  lemma DriveLinkIsRelative(url: string, body: string, serverAddress: string)
    requires BypassLink(url, body).Some?
    ensures "/u" <= BypassLink(url, body).value
    ensures NextHopUrl(serverAddress, BypassLink(url, body).value) == serverAddress + BypassLink(url, body).value
  {
    var raw := ScrapeConfirmLink(body).value;
    ScrapedLinkHead(body);
    ReplaceAllKeepsHead(raw, "&amp;", "&", 2);
    RelativeLinkNextHop(serverAddress, BypassLink(url, body).value);
  }

  /**
   * When a Drive URL answers 200 with the confirm page, the next GET of the
   * chain is for the current server address followed by the decoded link,
   * with the page's cookies merged into the map.
   */
  lemma DriveBypassHop(url: string, net: Transport, cookies: Jar, n: int)
    requires n + 2 <= MaxHops
    requires ResponseOf(net, Hop(url, cookies)).Some?
    requires ResponseOf(net, Hop(url, cookies)).value.status == 200
    requires BypassLink(url, ResponseOf(net, Hop(url, cookies)).value.body).Some?
    ensures var res := ResponseOf(net, Hop(url, cookies)).value;
      var link := BypassLink(url, res.body).value;
      && |Fetch(url, net, cookies, n).hops| >= 2
      && Fetch(url, net, cookies, n).hops[1] == Hop(SplitUrl(url).0 + link, MergeSetCookies(cookies, res.setCookies))
  {
    var res := ResponseOf(net, Hop(url, cookies)).value;
    var link := BypassLink(url, res.body).value;
    DriveLinkIsRelative(url, res.body, SplitUrl(url).0);
    var next := SplitUrl(url).0 + link;
    var jar := MergeSetCookies(cookies, res.setCookies);
    assert StepOf(net)(url, cookies) == Some(Follow(next, jar));
    var rest := Fetch(next, net, jar, n + 1);
    assert Fetch(url, net, cookies, n) == Then(Hop(url, cookies), rest);
    ChainStarts(StepOf(net), next, jar, n + 1);
  }
}
