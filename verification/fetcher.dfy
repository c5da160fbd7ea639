/**
 * `Request` (main.cpp): one GET per hop, bounded recursion over a hop
 * counter, cookies carried from hop to hop, 302 redirects followed, and the
 * Google-Drive "confirm download" page scraped for the real download link.
 *
 * The HTTP client is an oracle: a function from the request the patcher
 * sends (server address, path, optional `Cookie` header) to an optional
 * response, `None` standing for a transport error. What `StreamOut` writes to
 * the output stream is returned as `written`.
 */
module Fetcher {
  import opened Wrappers
  import opened StdString
  import opened UrlSplitter
  import opened Substitution
  import opened CookieJar

  /** Invocations of `Request` allowed in one chain; the next one fails. */
  const MaxHops := 5

  /** Marker of the Google Drive host looked for in the URL. */
  const DriveMarker := "://drive.google.com/"

  /** Start of the "download anyway" anchor on Drive's large-file page. */
  const ConfirmHref := "href=\"/uc?export=download&amp;confirm="

  /** Length of `href="`, skipped to reach the link itself. */
  const HrefAttrLen := 6

  /** One GET as handed to the HTTP client. */
  datatype HttpGet = HttpGet(server: string, path: string, cookie: Option<string>)

  /**
   * What the client reports back: the status, every `Set-Cookie` value in
   * order, the `Location` value (empty when absent) and the body.
   */
  datatype Response = Response(status: int, setCookies: seq<string>, location: string, body: string)

  /** The HTTP client; `None` is a transport error. */
  type Transport = HttpGet -> Option<Response>

  /** One invocation of `Request` that reached the client: its URL and its copy of the cookie map. */
  datatype Hop = Hop(url: string, jar: Jar)

  /** The result of a chain: the boolean returned, the bytes written, and the hops that issued a GET. */
  datatype Outcome = Outcome(ok: bool, written: string, hops: seq<Hop>)

  /** The `Cookie` header `Request` attaches: none for an empty map. */
  ghost function CookieHeader(jar: Jar): Option<string>
  {
    if jar == map[] then None else Some(Render(SortedKeys(jar.Keys), jar))
  }

  /** The GET a hop issues for `url` with cookie map `jar`. */
  ghost function Prepare(url: string, jar: Jar): HttpGet
  {
    var parts := SplitUrl(url);
    HttpGet(parts.0, parts.1, CookieHeader(jar))
  }

  /**
   * The GET goes to the URL split in two at its third slash, and carries a
   * non-empty `Cookie` header exactly when the map is not empty.
   */
  lemma PrepareSpec(url: string, jar: Jar)
    ensures Prepare(url, jar).server + Prepare(url, jar).path == url
    ensures Prepare(url, jar).cookie.None? <==> jar == map[]
    ensures Prepare(url, jar).cookie.Some? ==> Prepare(url, jar).cookie.value != ""
  {
    SplitUrlSpec(url);
    RenderEmptyIff(SortedKeys(jar.Keys), jar);
  }

  /** The Drive test: the marker's first occurrence starts before index 6. */
  predicate IsDriveUrl(url: string)
  {
    match Find(url, DriveMarker, 0)
    case None => false
    case Some(p) => p < 6
  }

  /**
   * The text `skip` characters into the first occurrence of `marker`, up to
   * the next '"' or to the end of the body when there is none.
   */
  function QuotedAfter(body: string, marker: string, skip: nat): Option<string>
    requires skip <= |marker|
  {
    match Find(body, marker, 0)
    case None => None
    case Some(pos) =>
      var start := pos + skip;
      var end := match Find(body, "\"", start) case None => |body| case Some(e) => e;
      Some(body[start..end])
  }

  /** The raw link of the "download anyway" anchor: what follows its `href="`. */
  function ScrapeConfirmLink(body: string): Option<string>
  {
    QuotedAfter(body, ConfirmHref, HrefAttrLen)
  }

  /**
   * The URL of the bypass hop: the link itself when its first character
   * outside ":/" is at index 4 or 5 (after "http" or "https"), otherwise the
   * link appended to the current server address.
   */
  function NextHopUrl(serverAddress: string, link: string): string
  {
    var schemePos := FindFirstNotOf(link, "://", 0);
    if schemePos == Some(4) || schemePos == Some(5) then link else serverAddress + link
  }

  /** What one hop does with the response it received: end the chain, or ask again elsewhere. */
  datatype Decision = Stop(ok: bool, written: string) | Follow(url: string, jar: Jar)

  /**
   * The confirm link of a 200 response, decoded, when this hop's URL is a
   * Drive URL and the body holds the anchor.
   */
  function BypassLink(url: string, body: string): Option<string>
  {
    if IsDriveUrl(url) then
      match ScrapeConfirmLink(body)
      case None => None
      case Some(raw) => Some(ReplaceAll(raw, "&amp;", "&"))
    else None
  }

  /**
   * The handling of a response by `Request`, once its `Set-Cookie` values are
   * merged: a 200 follows the Drive confirm link when there is one and
   * otherwise emits the body; a 302 follows a non-empty `Location` as it is;
   * anything else fails.
   */
  ghost function Decide(url: string, res: Response, cookies: Jar): Decision
  {
    var jar := MergeSetCookies(cookies, res.setCookies);
    if res.status == 200 then
      match BypassLink(url, res.body)
      case Some(link) => Follow(NextHopUrl(SplitUrl(url).0, link), jar)
      case None => Stop(true, res.body)
    else if res.status == 302 then
      if res.location == "" then Stop(false, "")
      else Follow(res.location, jar)
    else Stop(false, "")
  }

  /** What one hop does: `None` on a transport error, otherwise the decision on the response. */
  ghost function Step(net: Transport, url: string, jar: Jar): Option<Decision>
  {
    match net(Prepare(url, jar))
    case None => None
    case Some(res) => Some(Decide(url, res, jar))
  }

  /** A hop function: what a hop for a URL with a cookie map does. */
  type Stepper = (string, Jar) -> Option<Decision>

  /** The hop function of the transport `net`. */
  ghost function StepOf(net: Transport): Stepper
  {
    (url: string, jar: Jar) => Step(net, url, jar)
  }

  /** The chain continued by a further hop: `hop` comes first, the result is the rest's. */
  function Then(hop: Hop, rest: Outcome): Outcome
  {
    Outcome(rest.ok, rest.written, [hop] + rest.hops)
  }

  /**
   * The bounded recursion of `Request`, for any hop function: the counter is
   * incremented on entry and the chain fails without a GET once it exceeds
   * `MaxHops`; each hop stops the chain or continues it with a further hop.
   */
  ghost function Chain(step: Stepper, url: string, jar: Jar, recursiveCount: int): Outcome
    decreases MaxHops - recursiveCount
  {
    var count := recursiveCount + 1;
    if count > MaxHops then Outcome(false, "", [])
    else
      var hop := Hop(url, jar);
      match step(url, jar)
      case None => Outcome(false, "", [hop])
      case Some(Stop(ok, written)) => Outcome(ok, written, [hop])
      case Some(Follow(next, nextJar)) => Then(hop, Chain(step, next, nextJar, count))
  }

  /** The chain `Request(url, out, cookies, recursiveCount)` runs against the transport `net`. */
  ghost function Fetch(url: string, net: Transport, cookies: Jar, recursiveCount: int): Outcome
  {
    Chain(StepOf(net), url, cookies, recursiveCount)
  }

  /** The `Set-Cookie` loop of `Request`: each header value goes through `AddCookie`, in order. */
  method MergeResponseCookies(cookies: Jar, setCookies: seq<string>) returns (jar: Jar)
    ensures jar == MergeSetCookies(cookies, setCookies)
  {
    jar := cookies;
    var i := 0;
    while i < |setCookies|
      invariant i <= |setCookies|
      invariant jar == MergeSetCookies(cookies, setCookies[..i])
    {
      MergeSetCookiesStep(cookies, setCookies, i);
      jar := AddCookie(setCookies[i], jar);
      i := i + 1;
    }
    assert setCookies[..i] == setCookies;
  }

  /** The Drive branch of `Request` for a 200 reply: the scraped, unescaped confirm link, if any. */
  method FindBypassLink(url: string, body: string) returns (link: Option<string>)
    ensures link == BypassLink(url, body)
  {
    link := None;
    if IsDriveUrl(url) {
      var found := ScrapeConfirmLink(body);
      if found.Some? {
        var unescaped := Replace(found.value, "&amp;", "&");
        link := Some(unescaped);
      }
    }
  }

  /**
   * `Request` (main.cpp). The cookie map is taken by value: the `Set-Cookie`
   * values of this hop are merged into a local copy that the next hop receives.
   */
  method Request(url: string, net: Transport, cookies: Jar, recursiveCount: int)
    returns (ok: bool, written: string, ghost hops: seq<Hop>)
    ensures ok == Fetch(url, net, cookies, recursiveCount).ok
    ensures written == Fetch(url, net, cookies, recursiveCount).written
    ensures hops == Fetch(url, net, cookies, recursiveCount).hops
    decreases MaxHops - recursiveCount
  {
    var count := recursiveCount + 1;
    if count > MaxHops {
      return false, "", [];
    }

    var sepPos := GetPathSepIndex(url);
    var serverAddress := url[..sepPos];
    var path := url[sepPos..];
    assert (serverAddress, path) == SplitUrl(url);

    var cookieHeader: Option<string> := None;
    if cookies != map[] {
      var value := MakeCookieValue(cookies);
      cookieHeader := Some(value);
    }
    var get := HttpGet(serverAddress, path, cookieHeader);
    assert get == Prepare(url, cookies);
    ghost var hop := Hop(url, cookies);

    var res := net(get);
    if res.None? {
      assert StepOf(net)(url, cookies).None?;
      return false, "", [hop];
    }
    var response := res.value;
    ghost var decision := Decide(url, response, cookies);
    assert StepOf(net)(url, cookies) == Some(decision);

    var jar := MergeResponseCookies(cookies, response.setCookies);

    if response.status == 200 {
      var link := FindBypassLink(url, response.body);
      if link.Some? {
        var fullLinkUrl := NextHopUrl(serverAddress, link.value);
        assert decision == Follow(fullLinkUrl, jar);
        ok, written, hops := Request(fullLinkUrl, net, jar, count);
        hops := [hop] + hops;
        return;
      }
      assert decision == Stop(true, response.body);
      return true, response.body, [hop];
    }

    if response.status == 302 {
      if response.location == "" {
        assert decision == Stop(false, "");
        return false, "", [hop];
      }
      assert decision == Follow(response.location, jar);
      ok, written, hops := Request(response.location, net, jar, count);
      hops := [hop] + hops;
      return;
    }

    assert decision == Stop(false, "");
    return false, "", [hop];
  }
}
