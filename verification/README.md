# Patcher fetch and unpack core, modelled in Dafny

This project models the logic of the patcher's `main.cpp` that sits in front of
its HTTP and zip libraries:

- splitting a URL at its third '/' into a server address and a path (`GetPathSepIndex`);
- rewriting a string until a pattern no longer occurs (`Replace`);
- the cookie map: parsing one `Set-Cookie` value (`AddCookie`) and rendering the `Cookie` header (`MakeCookieValue`);
- the fetch chain of `Request`, which has four parts:
  - a bounded recursion over a hop counter;
  - one GET per hop, with cookies carried from hop to hop;
  - only 302 redirects followed;
  - the Google Drive "download anyway" page scraped for the real link;
- unpacking an archive (`ExtractZip`, `ExtractZipToSourceDir`). Directory entries are skipped when they exist and created otherwise. File entries are extracted. A `runtime_error` thrown while opening the archive, by `create_directories` or by `extract` makes `ExtractZip` return false.

The libraries are oracles passed in as parameters:

- The HTTP client is a function from the request sent (server address, path, optional `Cookie` header) to an optional response; `None` is a transport error.
- The zip library is a function from a path to the archive's entry names in order; `None` means the archive cannot be opened.
- A fault oracle says which entries make `create_directories` or `extract` throw.
- The filesystem is a `Disk` object holding the sets of existing directories and files.

Modules:

| file | module | what it holds |
|---|---|---|
| `wrappers.dfy` | `Wrappers` | `Option` |
| `std_string.dfy` | `StdString` | `find` and `find_first_not_of` with the library's semantics |
| `url_splitter.dfy` | `UrlSplitter` | `GetPathSepIndex` and the server/path split |
| `substitution.dfy` | `Substitution` | `Replace` and the rewriting it performs (`ReplaceAll`) |
| `cookie_jar.dfy` | `CookieJar` | std::map key order, `MakeCookieValue`, `AddCookie`, merging a response's cookies |
| `fetcher.dfy` | `Fetcher` | `Request`, its specification `Fetch` (an instance of `Chain`), and the Drive scrape |
| `fetch_properties.dfy` | `FetchProperties` | what the fetch chain guarantees |
| `extractor.dfy` | `Extractor` | `ExtractZip`, `ExtractZipToSourceDir`, `Disk`, and the specification `Unpack` |

`Request` is a recursive method proved equal to the ghost function `Fetch`. `Fetch` runs the generic bounded chain `Chain` with the hop function of the transport. Properties of the chain are proved once for any hop function, then instantiated. `Request` also returns a ghost trace: each hop's URL and the copy of the cookie map that hop received.

Some behaviour a reader might expect of a downloader is not what the code does. The model follows the code:

- A later `Set-Cookie` value for a name that is already present does not overwrite it. `map::insert` keeps the first value (main.cpp:105); see `MergeSetCookiesFirstWins`.
- Only status 302 is followed, not every 3xx redirect status (main.cpp:180).
- `Location` is followed as it is. A relative `Location` is not resolved against the current server (main.cpp:188).
- The Drive test is repeated on every hop's own URL, with `find("://drive.google.com/") < 6` (main.cpp:158). It is not decided once for the chain's first URL.
- A scraped link starting with `http://` or `https://` is not taken as absolute. `find_first_not_of("://")` returns 0 for it, not 4 or 5, so the server address is put in front of it (main.cpp:166-169); see `AbsoluteLinkPrefixed`.
- A URL with fewer than three '/' is sent with an empty path (main.cpp:119); no '/' is supplied.

## Model

| member | source | states |
|---|---|---|
| UrlSplitter.GetPathSepIndex | main.cpp:57-67 | Returns the index of the third '/' when the URL has at least three. Returns the URL's length when it has fewer. The result is the unique index with that property (`PathSep`). |
| UrlSplitter.PathSepUnique | main.cpp:57-67 | At most one index satisfies the third-slash / length characterisation. |
| UrlSplitter.PathSepInside | main.cpp:57-67 | The separator lies inside the URL exactly when the URL holds at least three '/'. |
| UrlSplitter.SplitUrlSpec | main.cpp:117-119 | Server address + path rebuilds the URL. With three or more '/', the path starts with '/' and the server address holds exactly two '/'. Otherwise the path is empty and the server address is the whole URL. |
| StdString.FindSpec | main.cpp:78 | `find` returns the first occurrence at or after the start index, and `npos` (None) only when there is none. |
| StdString.FindNoneIff | main.cpp:78 | A search from the start finds nothing exactly when the pattern does not occur. |
| StdString.FindFirstNotOfSpec | main.cpp:166 | `find_first_not_of` returns the first index holding a character outside the set, and `npos` only when there is none. |
| Substitution.Replace | main.cpp:74-83 | With `to` shorter than `from` (the only call uses "&amp;" to "&"), the loop ends. The result is `ReplaceAll` of the input, contains no occurrence of `from`, and is no longer than the input. |
| Substitution.ReplaceAll | main.cpp:74-83 | The string the loop arrives at: the first occurrence of `from` replaced by `to`, then the search repeated from the start. Its properties are `ReplaceAllSpec`, `ReplaceAllNoMatch` and `ReplaceAllKeepsHead`. |
| Substitution.RewritingKeepsEnd | main.cpp:78-81 | Every round of the loop keeps the final result of the rewriting the same and never lengthens the string. |
| Substitution.ReplaceAllSpec | main.cpp:74-83 | The rewriting leaves no occurrence of `from` and never lengthens the string. |
| Substitution.ReplaceAllNoMatch | main.cpp:78 | A string without `from` comes back unchanged. |
| Substitution.ReplaceAllKeepsHead | main.cpp:78-81 | A head in which `from`'s first character never appears is left in place by every round. |
| CookieJar.BelowTransitive | main.cpp:88 | The lexicographic order of std::map keys is transitive (with `BelowIrreflexive` and `BelowTotal`, a strict total order). |
| CookieJar.LeastExists | main.cpp:88 | Every non-empty key set has a least key, the first one std::map iterates. |
| CookieJar.SortedKeys | main.cpp:88 | std::map iterates its keys in strictly ascending order, each key exactly once. |
| CookieJar.RenderLeastFirst | main.cpp:88-91 | The rendering of a key set starts with the entry of its smallest key, then renders the remaining keys. |
| CookieJar.MakeCookieValue | main.cpp:85-93 | Renders `key=value; ` for every entry in ascending key order, each key once. The result is empty exactly when the map is empty. |
| CookieJar.RenderEmptyIff | main.cpp:85-93 | A rendering is empty exactly when no key is rendered. |
| CookieJar.AddCookieSpec | main.cpp:95-106 | A malformed value, or a name already present, leaves the map unchanged. Otherwise exactly the parsed entry is added. No existing entry is ever changed. |
| CookieJar.ParseSetCookieSpec | main.cpp:95-104 | A value is accepted exactly when some '=' has no ';' before it. The name is then the text before the first '=', free of '=' and ';'. The value is the text after it up to the first ';' or the end. |
| CookieJar.SeparatorsDistinct | main.cpp:97-101 | The first '=' and the first ';' (or the end) never coincide, so the comparison at main.cpp:101 decides every case. |
| CookieJar.ParseSetCookie | main.cpp:97-104 | The pair `AddCookie` takes from one value: no pair without an '=' or with the first '=' after the first ';'. Otherwise the name is before the first '=' and the value runs up to the first ';' or the end. `ParseSetCookieSpec` characterises it. |
| CookieJar.AddCookie | main.cpp:95-106 | The map after `AddCookie`: the parsed pair inserted with `map::insert`. `AddCookieSpec` states its effect. |
| CookieJar.MergeSetCookiesKeys | main.cpp:139-143 | Merging a response's values keeps every existing entry unchanged and adds exactly the names of the well-formed values. |
| CookieJar.MergeSetCookiesFirstWins | main.cpp:139-143 | For a name not already in the map, the stored value is the one from the first well-formed value carrying that name. |
| Fetcher.PrepareSpec | main.cpp:117-130 | The GET goes to the URL split at its third '/'. It carries a non-empty `Cookie` header exactly when the map is non-empty. |
| Fetcher.MergeResponseCookies | main.cpp:137-143 | The loop applies `AddCookie` to every `Set-Cookie` value in order. |
| Fetcher.FindBypassLink | main.cpp:158-165 | Returns `BypassLink`, with `Replace` doing the decoding. When the link exists and what text it is are stated by `BypassLinkFires` and `BypassLinkText`. |
| Fetcher.BypassLink | main.cpp:158-165 | The Drive branch's link: the quoted text after the anchor's `href="`, decoded, for a URL that passes the Drive test. `BypassLinkFires` and `BypassLinkText` characterise it. |
| Fetcher.NextHopUrl | main.cpp:166-169 | The bypass hop's URL: the link itself when `find_first_not_of("://")` gives 4 or 5, otherwise the server address followed by the link. `RelativeLinkNextHop` covers the Drive case. |
| Fetcher.Decide | main.cpp:155-191 | What a hop does with its response once cookies are merged; `DecideOutcomes` and `DecideStop` state it status by status. |
| Fetcher.Chain | main.cpp:108-192 | The bounded recursion for any hop function. The counter is incremented on entry, and the chain fails without a GET once it exceeds 5. Its properties are the `Chain…` lemmas. |
| Fetcher.Fetch | main.cpp:108-192 | The chain `Request` runs against a transport. `Request` is proved equal to it, and the `Fetch…` and `RedirectLoop…` lemmas state its properties. |
| Fetcher.Request | main.cpp:108-192 | Returns what the specification `Fetch` returns. Its ghost trace of hops is `Fetch`'s. |
| FetchProperties.ChainHopBound | main.cpp:110-115 | A chain entered with counter n makes at most 5 - n hops, and none once n >= 5. |
| FetchProperties.FetchHopBound | main.cpp:110-188 | `Request` entered with counter n issues at most 5 - n GETs. |
| FetchProperties.AtMostFiveGets | main.cpp:108-115 | A chain started with the default counter issues at most five GETs. |
| FetchProperties.ChainSelfLoop | main.cpp:180-188 | A hop function that always sends the URL back to itself fails after exactly 5 - n hops, all for that URL, with nothing written. |
| FetchProperties.RedirectLoopFails | main.cpp:110-188 | A server answering every GET for a URL with a 302 back to it makes the chain fail after 5 - n GETs, all for that URL, with nothing written. |
| FetchProperties.RedirectLoopFromStart | main.cpp:108-188 | From counter 0 such a loop issues exactly five GETs and fails on the sixth invocation. |
| FetchProperties.DecideOutcomes | main.cpp:155-191 | Any status other than 200 and 302 fails. A 302 without `Location` fails. A 302 with one follows it unresolved with the merged map. A 200 emits its body unless it is a Drive confirm page. |
| FetchProperties.DecideStop | main.cpp:155-191 | A hop that ends the chain succeeds only on a 200, writing its body; a failing hop writes nothing. |
| FetchProperties.ChainEndsByStep | main.cpp:110-191 | Every chain ends either in a failure writing nothing or exactly as its last hop decided. |
| FetchProperties.FetchWritesFinalBody | main.cpp:131-191 | Nothing is written unless the call succeeds. A success writes exactly the body of the last hop's response, which had status 200. |
| FetchProperties.ChainLinks | main.cpp:171-188 | The hops start with the requested URL and map, and each hop's decision asks for the next. |
| FetchProperties.FetchHopsChain | main.cpp:171-188 | The same for `Request`'s hops: each leads to the next through its response. |
| FetchProperties.LeadsCarriesCookies | main.cpp:139-188 | The next hop receives this hop's map with this hop's `Set-Cookie` values merged in. |
| FetchProperties.FetchCookiesCarried | main.cpp:139-188 | Along a chain no cookie is dropped or changed; every later hop's map extends every earlier one's. |
| FetchProperties.IsDriveUrlIff | main.cpp:158 | The Drive test holds exactly when "://drive.google.com/" occurs at some index below 6. |
| FetchProperties.QuotedAfterHead | main.cpp:160-164 | When the searched marker continues after the skipped characters with a text free of '"', the scraped text starts with that text. |
| FetchProperties.QuotedAfterText | main.cpp:160-164 | Take the first occurrence `p` of the marker. Take the first '"' at or after `p + skip` at `e`, or `e` is the end of the body when there is none. The scraped text is then exactly `body[p + skip..e]`. |
| FetchProperties.BypassLinkFires | main.cpp:158-161 | The Drive branch gives a link exactly when the URL passes the Drive test and the body contains the anchor. |
| FetchProperties.BypassLinkText | main.cpp:158-165 | For a Drive URL, the link starts at the anchor's first occurrence plus 6. It runs up to the next '"', or to the end of the body when there is none. Every "&amp;" in it is decoded to "&", and none is left. |
| FetchProperties.ScrapedLinkHead | main.cpp:160-164 | A link scraped after `href="` starts with "/u". |
| FetchProperties.AbsoluteLinkPrefixed | main.cpp:166-169 | A link whose first character is not ':' or '/' gives `find_first_not_of("://")` = 0. So it is appended to the server address, including an absolute `https://` link. |
| FetchProperties.RelativeLinkNextHop | main.cpp:166-169 | A link starting "/u" has its first character outside ":/" at index 1, so it is appended to the server address. |
| FetchProperties.DriveLinkIsRelative | main.cpp:160-169 | A decoded Drive link starts with "/u", and the bypass hop goes to the server address followed by the link. |
| FetchProperties.DriveBypassHop | main.cpp:155-171 | When a Drive URL answers 200 with the confirm page and the bound allows another hop, the next GET is for the server address + decoded link, with the page's cookies merged in. |
| Extractor.Disk.CreateDirectories | main.cpp:230 | The directory now exists; no file changes. |
| Extractor.Disk.ExtractFile | main.cpp:235 | The extracted file now exists; no directory changes. |
| Extractor.ExtractZip | main.cpp:209-245 | An archive that cannot be opened gives false with the disk unchanged. Otherwise the result and the new disk are those of `Unpack`: entries applied in order, stopping at the first that throws. |
| Extractor.ExtractZipToSourceDir | main.cpp:247-254 | A missing archive path gives false with the disk unchanged. Otherwise it is `ExtractZip` into the archive's parent directory. |
| Extractor.Join | main.cpp:224 | `dest / name` for POSIX paths. An absolute name replaces the destination. An empty destination, or one ending in '/', is followed directly by the name. Otherwise a '/' separates the two. |
| Extractor.ParentPath | main.cpp:252 | `parent_path` for POSIX paths; `ParentPathOfChild` states its results. |
| Extractor.Apply | main.cpp:222-236 | One entry: an existing directory is skipped, a missing one is created, a file is extracted, and a throwing call gives no state. |
| Extractor.Unpack | main.cpp:217-237 | The entries applied in order, stopping with false at the first that throws. `ExtractZip` is proved equal to it, and the `Unpack…` lemmas state its properties. |
| Extractor.ParentPathOfChild | main.cpp:252 | `parent_path` of a bare name is empty, of "/name" is the root, and of "dir/name" is `dir`. |
| Extractor.UnpackGrows | main.cpp:216-237 | Extraction only adds; every existing directory and file still exists afterwards. |
| Extractor.UnpackOnlyEntries | main.cpp:219-235 | New directories come only from directory entries and new files only from file entries, at `dest / name`. |
| Extractor.UnpackSucceedsWithoutFaults | main.cpp:214-244 | When no library call throws, every entry is applied and the call returns true. |
| Extractor.UnpackFailsOnFaultyFile | main.cpp:235-243 | A file entry whose extraction throws makes the call return false. |
| Extractor.UnpackFailsOnFaultyDir | main.cpp:222-243 | A directory entry whose `create_directories` throws makes the call return false. This holds when its path is not on the disk and no earlier entry names it, so the existence test does not skip it. |
| Extractor.UnpackCovers | main.cpp:219-235 | After a success, every directory entry's path exists and every file entry's path is a file. |
| Extractor.UnpackHeld | main.cpp:222-235 | On a disk that already holds every entry, extraction succeeds and changes nothing; existing directories are skipped. |
| Extractor.ExtractAgainIsStable | main.cpp:209-245 | Extracting the same archive again after a success succeeds and leaves the disk as it was. |

## Left out

- Command-line parsing (`Arguments`, the help epilogue) and `main`, which only checks the argument count and downloads one hard-coded URL.
- `IsSameFile` and `ReadFirstLine`: plain file I/O that the core does not use.
- The HTTP client, TLS and the network. The transport is a total function of the request, so the same request always gets the same response within one chain.
- `StreamOut`'s write to the output stream, modelled as the `written` string of the result.
- Logging to `cout`/`cerr`, and the `slicent` flag, which only switches logging off.
- The zip library's internals. An archive is its entry names; `extract` either creates the file at `dest / name` or throws.
- Substitution.Replace: requires `to` to be shorter than `from`. That excludes every `to` that is not shorter, including calls the source completes, such as `Replace("aa", "a", "bb")`. The only call replaces "&amp;" with "&".
- Extractor.Disk.CreateDirectories: adds only the named directory, not its missing ancestors as `create_directories` does.
- Extractor.ExtractZip: `extract` into a missing parent directory is not modelled.
- Extractor.Disk: paths are compared as exact strings. A directory is found only under the spelling `Join` gives it, trailing '/' included. So on a disk holding `out/a`, the entry `a/` under `out` is not skipped, although `filesystem::exists("out/a/")` holds. The path normalisation of `filesystem::exists` is not modelled. `UnpackFailsOnFaultyDir` and the other `Unpack` lemmas hold of this exact-spelling disk.
- Extractor.ExtractZip: `filesystem::exists` is assumed not to throw. A fault during `extract` is modelled as writing no file; a partly written file is not modelled.
- Extractor.ExtractZip: an empty entry name is treated as a file. In the source, `back()` on an empty string is undefined behaviour.
- Extractor.Join: `std::filesystem` paths are modelled for POSIX separators only. Windows drive letters and '\' separators are not modelled. `ParentPath` follows the same rules.
- FetchProperties.ScrapedLinkHead: states only that the link starts with "/u", the part the scheme test depends on, not the whole `/uc?export=download&amp;confirm=` prefix.
- CookieJar.AddCookie: the map out-parameter is modelled as the function's result. `Request` reassigns its by-value copy with it.
- Strings: each Dafny `char` of a string stands for one byte of the `std::string`. Under that reading the indices compared at main.cpp:158 and main.cpp:167 are the same byte offsets, and the key order of `std::map` is the same, since `std::string` compares bytes as unsigned char. Multi-byte encodings are not modelled.
