# Shopify scraper core, modelled in Dafny

`shopify_scraper.py` crawls a shop from a seed URL, writes every page it
reaches to a discovery log, rewrites that log as a sorted, de-duplicated
sitemap, picks out the product pages, and then has each product page
extracted into a JSON record by a language-model service. This project
models the deterministic logic under that glue and proves what it does:

- **Seed prefixing** (`Urls.EnsureScheme`): `http://` goes in front of a
  seed that does not start with `http://` or `https://`.
- **URL normalisation** (`Urls.Normalize`): `strip → lower → rstrip('/') →
  split('?')[0]` on each log line. This is built from the Python `str`
  operations in `Text`, using ASCII case mapping and ASCII whitespace.
- **The sitemap** (`Sitemap`): the normalisation loop into a set, then
  `sorted`, which is modelled in `Order` on Python's code-point string order.
  Also the `/products/` filter.
- **The crawler** (`Crawl.Crawler`): `get_internal_links` as a class. Its
  fields are the shared `visited_urls` set and the discovery log. It also
  keeps one trace of every fetch attempt and every retry pause, in order. The crawl is
  sequential recursion over a finite abstract site. The site maps each URL to
  the outcome of its successive fetch attempts. `netloc` and `urljoin` are
  abstract functions.
- **The product pipeline** (`Pipeline`): `process_product_urls` as a method
  of class `Extractor`. Its state is the output folder, a map from file name
  to contents, plus one trace of its 60-second pauses and extraction calls,
  in order. A spec function `Run` describes the loop. The page fetch, the extraction service and
  `json.loads` are oracles, bundled in `Services`.

Where one might expect otherwise, the model follows the code:

- Normalised URLs keep their scheme (`Urls.NormalizeKeepsScheme`).
- Normalisation is not idempotent. A query can hide a trailing slash
  (`"a/?x"` → `"a/"` → `"a"`). Trailing slashes can also hide blanks
  (`"a /"` → `"a "` → `"a"`). `Urls.NormalizeFixpoint` states exactly which
  strings are fixed points.
- The 60-second pause is scheduled by list index, so skipped URLs count
  toward it.
- Links are resolved against the seed URL, not against the page they were
  found on. They are filtered against `visited_urls` when the page is read,
  before any of the child crawls runs.

## Model

| member | source | states |
|---|---|---|
| Text.Lower | shopify_scraper.py:204 | same length as the input; each character ASCII-lowered; no upper-case letter left |
| Text.Strip | shopify_scraper.py:204 | never longer than the input; neither end is whitespace |
| Text.LStripShape | shopify_scraper.py:204 | `lstrip` keeps a suffix and drops only whitespace before it |
| Text.RStripShape | shopify_scraper.py:204 | `rstrip` keeps a prefix and drops only whitespace after it |
| Text.RStripChar | shopify_scraper.py:204 | `rstrip('/')` is never longer than its input and does not end in '/' |
| Text.RStripCharShape | shopify_scraper.py:204 | `rstrip('/')` keeps a prefix and drops only '/' after it |
| Text.BeforeFirst | shopify_scraper.py:206 | `split('?')[0]` holds no '?', and a '?' follows it when it is shorter than the input |
| Text.BeforeFirstPrefix | shopify_scraper.py:206 | `split('?')[0]` is a prefix of its input |
| Text.AfterLast | shopify_scraper.py:76 | `split('/')[-1]` holds no '/', and a '/' precedes it when it is shorter than the input |
| Text.AfterLastSuffix | shopify_scraper.py:76 | `split('/')[-1]` is a suffix of its input |
| Text.Contains | shopify_scraper.py:99 | `sub in s`, as a recursive scan; characterised by `Text.ContainsAt` |
| Text.ContainsAt | shopify_scraper.py:99 | `sub in s` holds exactly when `sub` occurs in `s` at some index (used at line 99 and, through `Sitemap.ProductUrls`, at line 219) |
| Text.StripNewline | shopify_scraper.py:198 | a line read back with its line break strips to the same text as without it |
| Text.ContainsChar | shopify_scraper.py:99 | every character of `sub` occurs in a string that contains `sub` |
| Order.Less | shopify_scraper.py:209 | Python's `<` on strings, the order `sorted` uses; characterised by `Order.LessAt` |
| Order.LessAt | shopify_scraper.py:209 | at the first index where two strings differ, or where one ends, the shorter one sorts first if it ended, otherwise the smaller character decides |
| Order.LessIrreflexive | shopify_scraper.py:209 | no string sorts before itself |
| Order.LessTransitive | shopify_scraper.py:209 | string order is transitive |
| Order.LessTotal | shopify_scraper.py:209 | two different strings are ordered one way or the other |
| Order.Insert | shopify_scraper.py:209 | inserting a new string into an increasing sequence keeps it increasing and adds exactly that string |
| Order.SortSet | shopify_scraper.py:209 | `sorted(set)` is strictly increasing, and its elements are exactly the set's, each once |
| Order.DistinctCard | shopify_scraper.py:216 | a sequence without repeats is as long as its set of elements |
| Urls.EnsureScheme | shopify_scraper.py:180-181 | the result starts with `http://` or `https://`; a seed already starting with one is unchanged; otherwise `http://` is prepended |
| Urls.EnsureSchemeIdempotent | shopify_scraper.py:180-181 | prefixing twice is the same as prefixing once |
| Urls.Normalize | shopify_scraper.py:204-206 | a normalised URL holds no '?' and no upper-case letter |
| Urls.NormalizeShape | shopify_scraper.py:204-206 | a normalised URL is a prefix of `u.strip().lower().rstrip('/')` |
| Urls.FixedIsCanonical | shopify_scraper.py:204-206 | a string normalisation leaves alone is canonical: no '?', no upper case, no blank at either end, no trailing '/' |
| Urls.NormalizeFixpoint | shopify_scraper.py:204-206 | normalisation fixes a string if and only if it is canonical |
| Urls.NormalizeIdempotent | shopify_scraper.py:204-206 | for a '?'-free URL whose stripped form holds no whitespace, normalising twice equals normalising once |
| Urls.QueryBreaksIdempotence | shopify_scraper.py:204-206 | `"a/?x"` normalises to `"a/"`, which normalises again to `"a"` |
| Urls.BlankBreaksIdempotence | shopify_scraper.py:204-206 | `"a /"` normalises to `"a "`, which normalises again to `"a"` |
| Urls.NormalizeIgnoresCase | shopify_scraper.py:204 | URLs with the same lower-case form have the same normalised form |
| Urls.NormalizeDropsQuery | shopify_scraper.py:206 | a canonical URL with `?` and any query appended normalises back to itself |
| Urls.RStripSlashes | shopify_scraper.py:204 | `rstrip('/')` removes any run of slashes appended to a string that does not end in '/' |
| Urls.NormalizeDropsTrailingSlash | shopify_scraper.py:204 | a canonical URL with any non-empty run of trailing '/' appended normalises back to itself |
| Urls.NormalizeCollapses | shopify_scraper.py:201-207 | every case variant of a canonical URL, followed by any run of trailing slashes (possibly none), normalises to it |
| Urls.NormalizeLine | shopify_scraper.py:197-206 | a log line (URL plus line break) normalises like the URL |
| Urls.NormalizeKeepsPrefix | shopify_scraper.py:204-206 | a lower-case, '?'-free, non-blank prefix followed by an ordinary character survives normalisation |
| Urls.NormalizeKeepsScheme | shopify_scraper.py:204-206 | a URL starting with `http://` or `https://` and a host still starts with it after normalisation |
| Sitemap.NormalizeLines | shopify_scraper.py:201-207 | the set holds exactly the normalisations of the lines |
| Sitemap.BuildSitemap | shopify_scraper.py:201-209 | the rewritten sitemap is strictly increasing and holds exactly the normalisations of the lines |
| Sitemap.SitemapSize | shopify_scraper.py:209-216 | the reported count of unique URLs equals the number of distinct normalised lines |
| Sitemap.LogLinesNormalize | shopify_scraper.py:197-207 | the lines read back from the log normalise like the logged URLs |
| Sitemap.ProductUrls | shopify_scraper.py:219 | exactly the sitemap entries containing `/products/`, as an order-keeping subsequence, increasing when the sitemap is |
| Crawl.Of | shopify_scraper.py:141-175 | the events of one URL in the crawl's trace: a subsequence of it, no longer than it, every event about that URL |
| Crawl.OfAppend | shopify_scraper.py:141-175 | one more event adds to the events of its own URL only |
| Crawl.AlternatesStep | shopify_scraper.py:149-170 | a fetch after `k` fetches and pauses, or a pause after the `k + 1`-th fetch that is not the last allowed, keeps a URL's events in the order fetch, pause, fetch, … |
| Crawl.AlternatesCounts | shopify_scraper.py:149-170 | a URL's alternating events hold as many fetches as pauses or one more, so at most `max_retries` (3) fetches and one pause fewer |
| Crawl.Crawler.constructor | shopify_scraper.py:188-192 | the crawl starts with an empty visited set, log and trace |
| Crawl.Crawler.LogCountsVisited | shopify_scraper.py:141-147 | the log has one line per visited URL, and no more URLs are visited than the site can yield |
| Crawl.Crawler.Fetch | shopify_scraper.py:152 | the outcome of attempt `k` of `session.get(url)`: the site's k-th recorded response, or a failure past it |
| Crawl.Crawler.StopAt | shopify_scraper.py:150-175 | the attempt that ends the retry loop: every earlier attempt timed out, and it is either the first one that did not or the last one allowed |
| Crawl.Crawler.TracedAppend | shopify_scraper.py:145-160 | logging the seed, or a link found on the 200 page of a URL logged earlier, keeps every log entry traced back to the seed |
| Crawl.Crawler.ClaimStep | shopify_scraper.py:142-147 | claiming an unvisited same-host URL that is the seed or was found on a logged page keeps the invariant, and the URL has no events yet |
| Crawl.Crawler.TraceStep | shopify_scraper.py:149-170 | appending the next fetch or pause of the retry loop keeps every URL's events alternating and changes no other URL's events |
| Crawl.Crawler.ExploredKept | shopify_scraper.py:141-175 | a URL stays `Explored` (its `StopAt(url, 0) + 1` fetches with a pause between each two, and its same-host links visited when the last attempt got a 200 reply) while `visited_urls` only grows and its own events are untouched |
| Crawl.Crawler.LoggedInClosed | shopify_scraper.py:141-163 | every logged URL lies in every set that holds the seed and every same-host link found on a 200 page of its own members |
| Crawl.Crawler.VisitedLeast | shopify_scraper.py:141-163 | the crawl visits only URLs reachable from the seed by following same-host links of pages that answered 200 |
| Crawl.Crawler.VisitedClosed | shopify_scraper.py:141-163 | once every visited URL is explored and the seed is visited, every same-host link found on a visited page is visited |
| Crawl.Crawler.Crawl | shopify_scraper.py:141-175 | a URL already visited changes nothing; a new one must be the seed or a same-host link found on a logged 200 page; it is logged right away and its first fetch follows; every URL newly visited, the children included, is `Explored`; other URLs known before get no new events; the invariant holds throughout (log equals visited as a set, no log duplicates, every visited URL on the seed's host and traced to the seed, each URL's events alternate fetch, pause, …, fetch, at most 3 fetches); terminates on cyclic sites |
| Crawl.Crawler.Claim | shopify_scraper.py:144-147 | `visited_urls.add` and the log write of a URL that is the seed or a link found on a logged 200 page, before any fetch of it |
| Crawl.Crawler.FetchAndFollow | shopify_scraper.py:149-175 | the first new event is the fetch of the URL; the loop ends `Explored`: exactly `StopAt(url, 0) + 1` fetches with a pause between each two, so a retry only follows a timeout and the loop ends at the first other outcome; when the final attempt got a 200 reply its same-host links are visited; every URL newly visited is `Explored`, and no other URL known before gets new events |
| Crawl.Crawler.Retry | shopify_scraper.py:149-175 | one turn of the retry loop: after a timeout with attempts left the loop state is ready for the next attempt; otherwise the URL is `Explored` |
| Crawl.Crawler.Attempt | shopify_scraper.py:150-174 | one fetch, which comes first; reports a timeout exactly when the fetch timed out; pauses only after a timeout that is not the last attempt; on a 200 reply every same-host link of the page is visited afterwards and every URL newly visited is `Explored`; on any other outcome no URL is visited or logged, and the trace gains only the fetch and that pause |
| Crawl.Crawler.Request | shopify_scraper.py:151 | the fetch is appended to the trace, after the URL's earlier pause if any, and the invariant is kept |
| Crawl.Crawler.Pause | shopify_scraper.py:170 | the pause is appended to the trace right after a fetch of the same URL, and the invariant is kept |
| Crawl.Crawler.FollowedLinks | shopify_scraper.py:155-160 | the followed links are exactly the resolved links on the seed's host that were not yet visited |
| Crawl.Crawler.FollowPage | shopify_scraper.py:152-163 | every same-host link of a 200 page ends up visited, and every URL newly visited has been crawled in full (`Explored`) |
| Crawl.Crawler.FollowAll | shopify_scraper.py:161-163 | all tasks, each a link found on the page, end up visited; every URL newly visited has been crawled in full (`Explored`), and the URLs visited before get no new events |
| Crawl.CrawlSite | shopify_scraper.py:188-192 | the crawl from the seed: the seed opens the log, every later log entry is a link found on the 200 page of an earlier one, and every visited URL is `Explored`; the visited set is exactly the least set that holds the seed and every same-host link on the 200 pages of its members |
| Pipeline.ProductName | shopify_scraper.py:76 | the product name holds no '/' |
| Pipeline.ProductNameIsLastSegment | shopify_scraper.py:76 | the product name is the URL's last '/'-separated segment |
| Pipeline.Path | shopify_scraper.py:77 | a path ends in `.json` exactly when it names a record file |
| Pipeline.PathInjective | shopify_scraper.py:131 | different file names give different paths, so a raw-text file never overwrites a record |
| Pipeline.StripFences | shopify_scraper.py:114-118 | the cleaned text is never longer than the stripped answer |
| Pipeline.FencesRemoved | shopify_scraper.py:114-118 | a stripped answer of the form `` ```json `` + X + `` ``` `` cleans to X |
| Pipeline.NoFences | shopify_scraper.py:114-118 | a stripped answer with neither fence is unchanged |
| Pipeline.Extract | shopify_scraper.py:95-111 | the full prompt goes first; the reduced prompt goes second, exactly when the first error text contains `context_length_exceeded`, and at most once |
| Pipeline.RetryErrorText | shopify_scraper.py:23 | the text of the error tenacity raises when it gives up without `reraise`: it opens with `RetryError[` and ends with the class name of the last exception, not its message |
| Pipeline.RetryErrorTextLacksG | shopify_scraper.py:23 | that text holds no 'g' when neither the future's address nor the class name does |
| Pipeline.RetryGuardNeverFires | shopify_scraper.py:96-99 | when the first call reports that text, the test at line 99 fails and the visit makes only the full-prompt call |
| Pipeline.Visit | shopify_scraper.py:75-138 | an existing `<name>.json` means no extraction call and no folder change; at most two calls |
| Pipeline.Store | shopify_scraper.py:121-134 | only the product's two files may change; a non-object parse changes nothing; a new record carries `url` |
| Pipeline.RawArtifact | shopify_scraper.py:131-133 | the text written to `<name>.json.txt`; its shape is stated by `Pipeline.RawArtifactNamesUrl` |
| Pipeline.VisitFrame | shopify_scraper.py:121-134 | a visit removes nothing and writes at most `<name>.json` and `<name>.json.txt` |
| Pipeline.VisitTagsRecord | shopify_scraper.py:122-126 | a record written by a visit has its `url` member set to the page's URL |
| Pipeline.RawArtifactNamesUrl | shopify_scraper.py:131-133 | the raw-text file opens with `URL: <url>` on its own line followed by a blank line, ends with the answer text, and holds nothing else |
| Pipeline.VisitStoresRecord | shopify_scraper.py:121-127 | an object answer is stored as `<name>.json`: the parsed members with `url` set to the page |
| Pipeline.VisitStoresRawText | shopify_scraper.py:128-134 | an unparsable answer is stored as `<name>.json.txt` holding `"URL: " + url + "\n\n" + text`, and no record is written |
| Pipeline.VisitFencedAnswer | shopify_scraper.py:113-127 | a fenced answer is stored as the parse of what is inside the fence |
| Pipeline.VisitSkipsFailedPage | shopify_scraper.py:83-136 | an unreachable page or a status other than 200 costs no call and writes nothing |
| Pipeline.VisitKeepsFolderOnError | shopify_scraper.py:95-138 | a failed extraction, or a JSON answer that is not an object, writes nothing |
| Pipeline.VisitKeepsRecords | shopify_scraper.py:79-81 | a visit never replaces a record that already exists |
| Pipeline.Turn | shopify_scraper.py:71-138 | one turn of the loop for index `i`: one pause exactly when `i > 0` and `i % 15 == 0`, then the visit's calls; only the pause when the visit makes no call |
| Pipeline.Run | shopify_scraper.py:71-138 | the loop never removes a file and never replaces an existing record |
| Pipeline.RunStep | shopify_scraper.py:71-138 | one more URL appends its turn (the pause if due, then its calls) to the events and visits it against the folder the earlier URLs left |
| Pipeline.RunCounts | shopify_scraper.py:71-111 | the events hold exactly `PauseSchedule(n)`'s number of pauses, and at most two calls per URL besides |
| Pipeline.RunAllSkipped | shopify_scraper.py:71-81 | when every product already has its record, the loop makes no call and leaves the folder unchanged |
| Pipeline.RunPrefix | shopify_scraper.py:71 | the events of the loop over the first `i` URLs start the events of the loop over all of them |
| Pipeline.PauseOrder | shopify_scraper.py:71-73 | a pause due before index `i` comes right after every call for the earlier URLs, so before any call for URL `i`; when none is due, URL `i`'s turn holds only calls |
| Pipeline.PauseScheduleSpec | shopify_scraper.py:71-73 | pauses come before exactly the indexes `i > 0` with `i % 15 == 0`, in increasing order, `(n - 1) / 15` of them |
| Pipeline.PauseSchedule | shopify_scraper.py:71-73 | the loop indexes that a 60-second pause comes before; characterised by `Pipeline.PauseScheduleSpec` |
| Pipeline.PauseStep | shopify_scraper.py:71-73 | one more URL adds a pause before index `i` exactly when `i > 0` and `i % 15 == 0` |
| Pipeline.Extractor.ProcessProductUrls | shopify_scraper.py:70-138 | the pauses and calls made, in order, and the final folder are those of `Run` over the list |
| Pipeline.Extractor.VisitUrl | shopify_scraper.py:75-138 | one pass of the loop body makes exactly the calls and leaves exactly the folder that `Visit` describes |

## Left out

- `preprocess_html` and the reduced-HTML rebuild (lines 41-68, 102-105) are
  BeautifulSoup tree edits with no DOM to model. A prompt is kept only as
  the page text it is built from (`Full` or `Reduced`).
- `get_gpt4_response` with its tenacity retry (lines 23-39) is an oracle
  that returns the stripped answer or an error text. The model's
  `Pipeline.Extract` tests the text of the service's own error, which is
  what the fallback at lines 98-109 evidently expects. As written, the error
  that reaches line 98 is the decorator's `RetryError`, whose text does not
  hold `context_length_exceeded`, so the fallback never runs (see
  Findings).
- aiohttp fetching, `urljoin`, `urlparse(...).netloc`, BeautifulSoup link
  extraction, `json.loads` and `json.dump` are abstract functions or
  oracles. A stored record is the parsed member map, not its serialised text.
- The crawl runs sequentially. The `ensure_future`/`gather` interleaving
  (lines 161-163) is not modelled, so the order of the log is the sequential
  one. Sleeps are recorded as events (in the crawler's trace and in the
  pipeline's trace), not as time.
- File I/O is modelled in its effect only. The log is a sequence, the output
  folder is a map keyed by `FileName`, and the folder path from `netloc`
  (line 185) is not part of a file name. `input()`, `load_dotenv`,
  `os.makedirs` and every `print` are left out.
- `readlines` splits on line breaks. A URL that itself contains one would
  come back as several lines; the model treats each logged URL as reading back
  as one line.
- Text.Lower: ASCII case mapping only, not full Unicode `str.lower`.
- Text.Strip: ASCII whitespace only (space, `\t` to `\r`, `\x1c` to `\x1f`),
  not the whole Unicode set `str.strip` removes.
- Urls.NormalizeIdempotent: also requires that the stripped URL contain no
  whitespace, because `Urls.BlankBreaksIdempotence` shows that a '?'-free
  input alone is not enough.
- Fragments (`#...`) are not removed by the code, and are not removed by the
  model.

## Findings

| source | as written | input that shows it | evidently intended | confidence | as-written member | corrected member |
|---|---|---|---|---|---|---|
| shopify_scraper.py:96-99 | `@retry(..., stop=stop_after_attempt(6))` does not set `reraise=True`, so after the sixth failure it raises tenacity's `RetryError`; `str(e)` at line 99 is then `RetryError[<Future at 0x… state=finished raised BadRequestError>]`, which never holds `context_length_exceeded` | a product page whose full prompt is too long for the model: every attempt fails with a `BadRequestError` whose message names `context_length_exceeded` | the test at line 99 sees the service's own error text, so the reduced prompt (lines 100-109) is sent | not executed | Pipeline.RetryGuardNeverFires | Pipeline.Extract |
