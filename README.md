# TeraBox downloader bot — a Dafny model of its link logic and download loop

The bot (`terabox_downloader_bot/main.py`) asks for a TeraBox share link and
rejects it unless it contains `terabox`. It then opens a browser, clicks the
download button and looks at where the browser ended up. A URL that has left
the `terabox` domain is taken as the download URL. Otherwise the page source
is scanned for `href` values, and the first one that starts with `https://`
and mentions `download` or `file` is taken. The file name is the part of the
URL after its last `/`, cut at the first `?`. The bot then streams the
response into that file chunk by chunk while a progress bar counts the bytes.

The model keeps the logic and replaces the browser and the network with their
results:

- `Resolver.PageVisit` is what the browser reports: navigation failed, the
  button never became clickable, a later browser call failed, or the page
  settled with a `current_url` and a `page_source`.
- `Downloader.Fetch` is what the server sends: a failed connection, or a
  status, an optional `content-length` header, the chunks `iter_content`
  delivers, and whether the stream then fails.
- `Platform.Host` is the machine: a map from file names to bytes and a count
  of launched browser sessions.

Modules, in dependency order:

| file | module | models |
|---|---|---|
| wrappers.dfy | `Wrappers` | `Option` |
| text.dfy | `Text` | `startswith`, `in` and `split` on strings |
| markup.dfy | `Markup` | `re.findall(r'href=[\'"]?([^\'" >]+)', ...)` as a tokenizer |
| resolver.dfy | `Resolver` | `extract_download_link` |
| naming.dfy | `Naming` | `download_url.split("/")[-1].split("?")[0]` |
| content_length.dfy | `ContentLength` | `int()` of the `content-length` header |
| platform.dfy | `Platform` | `setup_browser`, `open(..., 'wb')`, `f.write` |
| downloader.dfy | `Downloader` | `download_file` and its tqdm bar |
| bot.dfy | `Bot` | `main` |

Points where the code's behaviour may surprise a reader, as the model keeps them:

- The code has no fallback file name. A URL ending in `/` gives the name
  `""`. Once the response is accepted (connection, status and header all
  pass), `open("")` raises and the download fails (`CannotOpen`).
- Not every resolution failure becomes a result. `driver.get(link)` sits
  outside the `try`, so its exception escapes `extract_download_link` and
  `main` (`Resolution.Propagated`, `RunOutcome.Crashed`).
- A timeout, some other browser error and "no qualifying href" all give
  `None`, so `main` cannot tell them apart (`Resolution.Unresolved`).
- `main` tests `if download_url:`. An empty string is false there, so a
  redirect to an empty `current_url` ends as `NoDownloadUrl`.
- `int()` refuses a numeral of more than 4300 digits (CPython's default
  since 3.11 and the 3.7.14 / 3.8.14 / 3.9.14 / 3.10.7 security releases;
  absent in earlier releases), so such a `content-length` header fails the download
  (`BadContentLength`).

## Model

| member | source | states |
|---|---|---|
| `Text.ContainsIff` | terabox_downloader_bot/main.py:79 | the substring test `p in s` holds exactly when some position of `s` begins `p` |
| `Text.ContainsInfix` | terabox_downloader_bot/main.py:49 | a string placed inside another is found by the substring test |
| `Text.ContainsSuffix` | terabox_downloader_bot/main.py:49 | a substring of the tail of a string is a substring of the whole |
| `Text.Split` | terabox_downloader_bot/main.py:92 | `split(sep)` gives at least one piece, no piece holds the separator, and every character of a piece comes from the string |
| `Text.JoinSplit` | terabox_downloader_bot/main.py:92 | joining the pieces of a split with the separator gives the string back |
| `Text.SplitJoin` | terabox_downloader_bot/main.py:92 | splitting a join of separator-free pieces gives the pieces back |
| `Text.SplitFree` | terabox_downloader_bot/main.py:92 | a string without the separator splits into itself alone |
| `Text.SplitHead` | terabox_downloader_bot/main.py:92 | `split(sep)[0]` is the text before the first separator, or all of it |
| `Text.SplitLast` | terabox_downloader_bot/main.py:92 | `split(sep)[-1]` is the text after the last separator, or all of it |
| `Markup.Run` | terabox_downloader_bot/main.py:47 | the greedy `[^'" >]*` run is a prefix without stop characters that cannot be extended |
| `Markup.RunOfToken` | terabox_downloader_bot/main.py:47 | a stop-free text followed by a stop character or the end is exactly the run |
| `Markup.MatchHere` | terabox_downloader_bot/main.py:47 | a match is `href=`, at most one quote, a non-empty stop-free value and a rest that cannot extend the value |
| `Markup.MatchHereComplete` | terabox_downloader_bot/main.py:47 | every such reading of the text is the match found, so the match at a position is unique |
| `Markup.Hrefs` | terabox_downloader_bot/main.py:47 | every value `findall` extracts is non-empty and holds no `'`, `"`, space or `>` |
| `Markup.HrefsNeedHref` | terabox_downloader_bot/main.py:47 | a page without `href=` yields no values |
| `Markup.SkipChar` | terabox_downloader_bot/main.py:47 | the scan passes over a character that cannot start `href=` |
| `Markup.HrefsAfterMatch` | terabox_downloader_bot/main.py:47 | where the pattern matches, its value is captured and the scan resumes right after the match |
| `Markup.SkipAnchorOpen` | terabox_downloader_bot/main.py:47 | the scan passes over the `<a ` that opens an anchor |
| `Markup.SkipAnchorClose` | terabox_downloader_bot/main.py:47 | the scan passes over the `">` that closes an anchor |
| `Markup.HrefsOfAnchor` | terabox_downloader_bot/main.py:47 | the scan of `<a href="u">` captures `u` and resumes after the anchor |
| `Markup.HrefsOfAnchors` | terabox_downloader_bot/main.py:47 | scanning a page of anchors gives exactly their URLs, in document order |
| `Markup.HrefsOccur` | terabox_downloader_bot/main.py:47 | every extracted value occurs in the page |
| `Markup.MatchTokenOccurs` | terabox_downloader_bot/main.py:47 | the value of a match occurs in the text it was read from |
| `Markup.MatchRestOccurs` | terabox_downloader_bot/main.py:47 | whatever occurs in the text after a match occurs in the whole text |
| `Markup.SkippedOccurs` | terabox_downloader_bot/main.py:47 | whatever occurs after a skipped character occurs in the whole text |
| `Resolver.Qualifies` | terabox_downloader_bot/main.py:49 | the test holds exactly when the value starts with `https://` and some position of it begins `download` or `file` |
| `Resolver.FirstQualifying` | terabox_downloader_bot/main.py:48-50 | the choice is `None` exactly when no element qualifies; otherwise it is an element that qualifies with no qualifying element before it |
| `Resolver.FirstQualifyingAt` | terabox_downloader_bot/main.py:48-50 | a qualifying element with none qualifying before it is the one chosen |
| `Resolver.Resolve` | terabox_downloader_bot/main.py:28-54 | only a navigation failure escapes; a timeout or browser error gives `None`; a URL without `terabox` is returned as is; otherwise the result is the first extracted href that is `https://` and mentions `download` or `file`, and `None` exactly when there is none |
| `Resolver.RedirectIgnoresPage` | terabox_downloader_bot/main.py:42-44 | a redirected URL is returned whatever the page source is |
| `Resolver.ScanResultShape` | terabox_downloader_bot/main.py:47-50 | a URL the scan returns starts with `https://`, mentions `download` or `file`, is a valid href value and occurs in the page |
| `Resolver.EmbeddedLinkFound` | terabox_downloader_bot/main.py:46-50 | on a page of anchors, the first anchor that passes the test is the result, whatever anchors follow it |
| `Resolver.ExtractDownloadLink` | terabox_downloader_bot/main.py:42-54 | the redirect test and the `for match in matches` loop with its early return compute `Resolve` |
| `Naming.FileNameOf` | terabox_downloader_bot/main.py:92 | the derived name holds no `/` and no `?` |
| `Naming.FileNameLocated` | terabox_downloader_bot/main.py:92 | the derived name is the URL's text after its last `/`, up to the first `?` after it |
| `Naming.NameAtUnique` | terabox_downloader_bot/main.py:92 | a URL has one such final segment |
| `Naming.FileNameIsSegment` | terabox_downloader_bot/main.py:92 | any final segment without its query is the derived name |
| `ContentLength.ParseInt` | terabox_downloader_bot/main.py:60 | `int()` of a header value: blank input and input with more than 4300 digits raise |
| `ContentLength.StripAppendSpace` | terabox_downloader_bot/main.py:60 | a trailing whitespace character is stripped whatever precedes it |
| `ContentLength.ParseIntIgnoresPadding` | terabox_downloader_bot/main.py:60 | whitespace around the numeral does not change what `int()` gives |
| `ContentLength.DecimalString` | terabox_downloader_bot/main.py:60 | the decimal form of a number is a non-empty string of digits |
| `ContentLength.ValueOfDecimal` | terabox_downloader_bot/main.py:60 | the value of the decimal form of `n` is `n` |
| `ContentLength.ParseIntRoundTrip` | terabox_downloader_bot/main.py:60 | `int(str(i)) == i` for every integer of at most 4300 digits, the ones the model parses |
| `ContentLength.ParseIntRoundTripAll` | terabox_downloader_bot/main.py:60 | the same round trip, for all such integers at once |
| `Downloader.RaisesForStatus` | terabox_downloader_bot/main.py:59 | `raise_for_status` raises exactly for statuses 400 to 599: client errors 400-499 and server errors 500-599 |
| `Downloader.DeclaredTotal` | terabox_downloader_bot/main.py:60 | `int(r.headers.get('content-length', 0))`: an absent header gives 0, and a header holding `str(n)` gives `n`, for `n` of at most 4300 digits |
| `Platform.Host.SetupBrowser` | terabox_downloader_bot/main.py:83 | launching a browser adds one session and changes no file |
| `Platform.Host.OpenForWrite` | terabox_downloader_bot/main.py:61 | `open(path, 'wb')` succeeds exactly for an openable name and then empties the file |
| `Platform.Host.Write` | terabox_downloader_bot/main.py:69 | `f.write(data)` appends all of `data` and returns its length |
| `Downloader.ConcatLength` | terabox_downloader_bot/main.py:68-70 | the bytes written add up to the sum of the chunk sizes |
| `Downloader.ConcatPlacesChunk` | terabox_downloader_bot/main.py:68-69 | each chunk lies in the file right after the chunks before it |
| `Downloader.ProgressBar.constructor` | terabox_downloader_bot/main.py:61-67 | the bar starts at zero with the declared total |
| `Downloader.ProgressBar.Update` | terabox_downloader_bot/main.py:70 | `bar.update(size)` adds `size` to the count |
| `Downloader.DownloadFile` | terabox_downloader_bot/main.py:56-73 | a failed connection, an HTTP 4xx/5xx status, an unparsable `content-length` or an unopenable name fail before the file is touched; otherwise the file holds exactly the concatenated chunks (also after a mid-stream failure), the bar's total is the parsed header or 0 without one, and its count equals the file's length |
| `Bot.GateRejects` | terabox_downloader_bot/main.py:79-81 | a link without `terabox` is rejected and no file changes |
| `Bot.AttemptedTarget` | terabox_downloader_bot/main.py:86-93 | a download is attempted only for a non-empty URL that is the redirect target or a qualifying href of the page, saved under its final segment without the query |
| `Bot.Run` | terabox_downloader_bot/main.py:75-98 | a run launches a browser exactly when the link contains `terabox`, ends as `Predicted` says, and changes files only through an attempted download that opened its file |
| `Bot.DownloadTwice` | terabox_downloader_bot/main.py:61 | downloading twice leaves the same files as downloading once, since `'wb'` truncates, and launches no browser |

## Left out

- `setup_browser` (terabox_downloader_bot/main.py:14-26): the Chrome options and driver installation are foreign calls. Only the launch is kept, as a count.
- Browser automation (terabox_downloader_bot/main.py:29, 33-39): `driver.get`, the 15-second wait, the click and the 5-second sleep depend on timing. Their results are the input `PageVisit`.
- Both `driver.quit()` calls (terabox_downloader_bot/main.py:88, 98): they release a foreign handle and hold no logic.
- HTTP (terabox_downloader_bot/main.py:58-59): `requests.get` becomes the input `Fetch`; `raise_for_status` is `RaisesForStatus` of its status. The chunk size of 1024 is not a constraint: the chunks are taken as the server delivers them.
- tqdm rendering (terabox_downloader_bot/main.py:61-67): only the total and the count of the bar are kept.
- Console I/O (terabox_downloader_bot/main.py:71, 73, 76-77, 80, 84, 91, 95): `input()`, its `.strip()` and the `print` calls. The link is taken as already stripped.
- `ContentLength.ParseInt`: Unicode digits and Unicode whitespace, which `int()` also accepts, are not modelled. The 4300-digit limit is CPython's default since 3.11 and the 3.7.14 / 3.8.14 / 3.9.14 / 3.10.7 security releases; it is absent in earlier releases and changeable through `sys.set_int_max_str_digits`. The model fixes it at 4300.
- `Platform.CanOpenForWrite`: only the empty name, `.`, `..` and a NUL character make `open` fail. Permission errors, existing directories and overlong names are not modelled.
- `Downloader.DownloadFile`: a failing `f.write` (for example a full disk) is not modelled. Only a failing stream ends the loop early.
