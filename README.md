# Advanced crawler: traversal bookkeeping

This project models the traversal core of `advanced_crawler.py`, a breadth-first
web crawler, and proves properties of the model in Dafny:

- How a URL is recognised as a spider trap (`is_spider_trap`): the URL is split
  on `/` and flagged when fewer than half of the pieces are distinct.
- How two URLs are judged to be on the same domain (`extract_domain`,
  `is_same_domain`): their netlocs are compared.
- How the text, meta description, meta keywords and image sources of a page are
  extracted (`extract_content`). This includes the `KeyError` raised when a
  meta tag has no `content` attribute.
- How one URL is visited (`fetch_url`):
  - it returns early on depth 0, on a visited URL or on a trap;
  - a failed load changes nothing;
  - the URL is recorded under its canonical link when that link is unvisited;
  - the recorded URL is inserted into the global visited set and one result
    record is appended;
  - the page's links are filtered and visited recursively with one level less.
- How the breadth-first queue of `(url, depth)` entries is processed
  (`bfs_crawl`). After each visit every visited URL on the first seed's domain
  is queued again, one level down.

Modules:

- `Seqs` (`seqs.dfy`): sequence and set helpers.
- `Urls` (`urls.dfy`): the split on `/`, the trap rule, the netloc, the domain
  check and the `"http"` prefix test.
- `Pages` (`pages.dfy`): the parsed page and content extraction.
- `Links` (`links.dfy`): the link filter, as a function `Followed`.
- `Crawler` (`crawler.dfy`):
  - `Visit`, `Load` and `VisitAll` say, as functions on the bookkeeping
    (visited set and saved records), what a visit does;
  - the class `Crawler` holds the bookkeeping in fields `visited` and `results`;
  - its methods `Fetch`, `FetchEach`, `FilterLinks`, `DomainTasks`, `Turn` and
    `Crawl` change those fields in place and are proved to agree with the
    functions.

The outside world is a parameter `Env`:

- a map from URL to parsed page (a URL not in the map fails to load);
- the rules of the link filter:
  - `join`, an abstract `urljoin`;
  - `netloc`, the netloc extractor behind the domain check;
  - the `domain_restriction` flag.

`Urls.Netloc` is a concrete model of the netloc that `urlparse` computes; its
lemmas show what the domain check means for ordinary `scheme://host/...` URLs.

Facts about the code that the model keeps:

- The trap rule is the one ratio test above. The code has no repetition
  threshold, no maximum segment count and no query-string drift check. `http://h/a/a/a/a/a` is not a trap: it has 8 pieces,
  4 of them distinct. `RepeatedPieceTrap` shows that one piece repeated after the
  host makes a trap only from six copies on.
- The code has no retry or backoff logic, no URL normalisation and no level
  barrier. Entries queued again are visited URLs, so popping them only skips them.
- Two request URLs that name the same canonical target are not collapsed into
  one record. The second is recorded under its own URL (`CanonicalNotCollapsed`).
- Extraction reads only the FIRST `description` and the first `keywords` tag.
  A later tag with the same name is never looked at (`MetaValueFirst`).
- Extraction can fail. A `description` or `keywords` meta tag without `content`
  raises. The exception is caught in `fetch_url` after the URL was already
  inserted into the visited set, so that URL is visited but has no record and
  its links are not followed. A canonical `<link>` without `href` raises before
  the insertion, so nothing changes.
  - Consequence: saved records number at most the URLs newly visited.
  - They are equal when every page extracts (`VisitCount`, `VisitAllCount`).

## Model

| member | source | states |
|---|---|---|
| Urls.Segments | advanced_crawler.py:80 | `url.split('/')`: at least one piece, characterised by `JoinSegments`, `SegmentsSlashFree` and `SegmentsJoin` below |
| Urls.IsSpiderTrap | advanced_crawler.py:79-80 | the trap test: twice the number of distinct pieces is less than the number of pieces; its consequences are the trap lemmas below |
| Urls.JoinSegments | advanced_crawler.py:80 | joining the pieces of `url.split('/')` with '/' gives back the URL, so the split loses nothing |
| Urls.SegmentsSlashFree | advanced_crawler.py:80 | no piece of the split contains '/' |
| Urls.SegmentsJoin | advanced_crawler.py:80 | splitting a '/'-join of slash-free pieces gives back exactly those pieces |
| Urls.DistinctSegmentsNotTrap | advanced_crawler.py:79-80 | a URL whose pieces are pairwise distinct is never a trap |
| Urls.NoSlashNotTrap | advanced_crawler.py:79-80 | a URL without '/' is a single piece and never a trap |
| Urls.TrapRepeatsSegment | advanced_crawler.py:79-80 | every trap repeats at least one piece |
| Urls.RepeatedPieceTrap | advanced_crawler.py:79-80 | `http://host/` followed by n copies of one piece is a trap exactly when n >= 6 |
| Urls.AuthoritySpec | advanced_crawler.py:52-53 | the authority is the longest prefix free of '/', '?' and '#', and it stops at one of them |
| Urls.Netloc | advanced_crawler.py:52-53 | the netloc `urlparse` computes: after the scheme, if there is one, the authority following "//"; "" when no "//" follows; pinned down by `AuthoritySpec` and `NetlocOfUrl` |
| Urls.NetlocOfUrl | advanced_crawler.py:52-53 | the netloc of `scheme://authority` followed by a path, query, fragment or nothing is the whole `authority`, user info and port included |
| Urls.SameDomain | advanced_crawler.py:55-57 | two URLs are on the same domain when the netloc extractor gives both the same text; `SameDomainEquivalence` and `SameDomainOfUrls` give its meaning |
| Urls.SameDomainEquivalence | advanced_crawler.py:55-57 | same-domain is reflexive, symmetric and transitive, whatever the netloc extractor |
| Urls.SameDomainOfUrls | advanced_crawler.py:52-57 | two `scheme://host...` URLs are on the same domain exactly when their hosts are equal |
| Pages.FindMeta | advanced_crawler.py:65-66 | `soup.find('meta', attrs={'name': ...})`: any element it returns has that name and is on the page |
| Pages.FindMetaFirst | advanced_crawler.py:65-66 | `soup.find` of a meta name fails exactly when no tag has that name; otherwise it returns the first such tag |
| Pages.MetaValue | advanced_crawler.py:65-66 | the value one meta line of the extractor reads, `None` standing for the `KeyError`; `MetaValueCases` states it in terms of the elements |
| Pages.MetaValueFirst | advanced_crawler.py:65-66 | the value read is the content of the first element with the name, whatever later elements hold |
| Pages.MetaValueCases | advanced_crawler.py:65-66 | the value is "" without an element of that name and otherwise the first one's content; the lookup raises exactly when that first element has no content |
| Pages.ImageSources | advanced_crawler.py:69 | `[img['src'] for img in soup.find_all('img', src=True)]`: never more sources than images |
| Pages.ImageSourcesAppend | advanced_crawler.py:69 | the sources of two runs of images are the first run's sources followed by the second's, so document order and duplicates are kept |
| Pages.ImageSourcesSingle | advanced_crawler.py:69 | one image gives its `src` when it has one and nothing otherwise |
| Pages.ImageSourcesMembers | advanced_crawler.py:69 | a string is an image source exactly when some image has it as its `src` |
| Pages.Extract | advanced_crawler.py:60-76 | `extract_content`, `None` standing for the `KeyError` of a meta tag without content; `ExtractSpec` gives its meaning in terms of the page's elements |
| Pages.ExtractSpec | advanced_crawler.py:60-76 | extraction fails exactly when the first description element or the first keywords element has no content; on success the text is the page text, the images are the image sources, and description and keywords are the first such element's content, or "" when there is none |
| Pages.ExtractWithoutMeta | advanced_crawler.py:65-66 | a page without meta tags extracts with empty description and keywords |
| Links.Kept | advanced_crawler.py:113-125 | one anchor passes the filter: rel not exactly ['nofollow'], same domain under restriction, resolved URL starts with "http" and is unvisited; `FollowedMembers` ties it to the result |
| Links.Followed | advanced_crawler.py:111-126 | the links the loop collects: never more than the anchors; characterised by the four lemmas below |
| Links.FollowedFiltered | advanced_crawler.py:111-126 | every followed link starts with "http", is not visited, and with restriction on has the page's netloc |
| Links.FollowedIsSubsequence | advanced_crawler.py:111-126 | the followed links are an order-preserving subsequence of the resolved anchor URLs |
| Links.FollowedResolved | advanced_crawler.py:111-126 | every followed URL is the resolution of some anchor, and there are never more followed URLs than anchors |
| Links.FollowedMembers | advanced_crawler.py:111-126 | a URL is followed exactly when some anchor passing every test resolves to it |
| Links.FollowedAppend | advanced_crawler.py:111-126 | filtering two runs of anchors in turn is filtering them together |
| Links.NofollowDropped | advanced_crawler.py:116-117 | an anchor whose rel is exactly ['nofollow'] contributes nothing to the result |
| Crawler.Target | advanced_crawler.py:96-99 | the record URL is the canonical href when it is unvisited and the request URL otherwise; it fails exactly when the canonical link has no href; it is unvisited when the request URL is |
| Crawler.Visit | advanced_crawler.py:83-85 | one call of `fetch_url`: the visited set and the saved results only grow; the early returns are `VisitUnchanged` |
| Crawler.Load | advanced_crawler.py:87-137 | the body of the `try` in `fetch_url` for an unvisited URL: the visited set and the saved results only grow; its effect is given by `VisitRecords`, `VisitLeaf` and `VisitExtends` |
| Crawler.VisitAll | advanced_crawler.py:129-130 | the recursive visits of the followed links, one after another: the visited set and the saved results only grow |
| Crawler.VisitUnchanged | advanced_crawler.py:84-137 | depth 0, a visited URL, a trap or a failed load leave visited set and results unchanged |
| Crawler.VisitRecords | advanced_crawler.py:96-108 | a successful load marks its target visited; the target was not visited before; the first new record carries it with the extracted content |
| Crawler.VisitLeaf | advanced_crawler.py:97-130 | at depth 1 a successful visit adds exactly one URL and exactly one record |
| Crawler.CanonicalNotCollapsed | advanced_crawler.py:96-99 | two request URLs with the same canonical target give two records: the target, then the second request URL |
| Crawler.VisitAllAtZero | advanced_crawler.py:129-130 | visiting links with no levels left changes nothing |
| Crawler.VisitExtends | advanced_crawler.py:101-108 | visited and results only grow; each new record's URL is newly visited and saved once |
| Crawler.ExtendsKeepsInv | advanced_crawler.py:101-108 | extending keeps the saved URLs pairwise distinct and visited |
| Crawler.VisitAllExtends | advanced_crawler.py:129-130 | the same for a run of visits, as the recursion over links makes them |
| Crawler.VisitCount | advanced_crawler.py:101-108 | a visit saves at most as many records as URLs it newly visits, and exactly as many when every page extracts |
| Crawler.VisitAllCount | advanced_crawler.py:101-130 | the same for a run of visits |
| Crawler.Crawler.constructor | advanced_crawler.py:19-20 | a crawl starts with nothing visited and nothing saved, and the invariant holds |
| Crawler.Crawler.FilterLinks | advanced_crawler.py:111-126 | the loop builds exactly the followed links of the page |
| Crawler.Crawler.Fetch | advanced_crawler.py:83-137 | the new bookkeeping is that of visiting the URL at that depth; visited only grows |
| Crawler.Crawler.FetchEach | advanced_crawler.py:129-130 | the links are visited in order with one level less |
| Crawler.Crawler.DomainTasks | advanced_crawler.py:149-151 | the queued entries are exactly the visited URLs on the seed's domain, each once, at the next level |
| Crawler.Crawler.Turn | advanced_crawler.py:142-151 | a popped entry that is too deep or visited is skipped; otherwise it is visited with the levels left and only visited same-domain URLs are queued one level down |
| Crawler.SeedTasks | advanced_crawler.py:141 | the initial queue: one entry per seed, in order, each at level 0 (`SeedTasksPop` pops them in that order) |
| Crawler.Crawler.Crawl | advanced_crawler.py:140-151 | the outcome is that of visiting each seed in turn at full depth, and nothing changes when the depth is not positive; the invariant is kept. What each turn pops, visits and queues is `Turn`'s contract |

## Left out

- Selenium, the `requests` session and `Retry`: loading a page is a lookup in
  the `web` map of `Env`. A URL not in the map stands for any exception raised
  while loading.
- BeautifulSoup: a page is a pre-parsed record. It holds the visible text, the
  meta tags, the images, the first canonical link and the anchors with an
  `href`. `get_text` is taken as given.
- `urljoin`: the abstract total function `Rules.join`. `urljoin` raising on a
  malformed href is not modelled.
- `urlparse(...).netloc` inside the crawl: the abstract function
  `Rules.netloc`. `Urls.Netloc` models it concretely. It leaves out the
  removal of leading C0 control characters and spaces, the deletion of tab,
  CR and LF anywhere in the URL, and the `ValueError` on unbalanced brackets.
  Because `Rules.netloc` is total, the model also leaves out one exception that
  nothing catches. A canonical href such as `http://[x` is inserted into the
  visited set unchecked. `is_same_domain` on it in `bfs_crawl`'s re-queue step
  then raises `ValueError` outside any `try`, which ends the crawl.
- The thread pool: the recursive visits of the links run one after another, in
  link order. Interleavings over the shared visited set are not modelled.
- `time.sleep` rate limiting, the random proxy choice (which is never used) and
  logging: they do not affect the bookkeeping.
- `save_to_file`, `web_crawler`'s timing and `main`'s argument parsing: output
  and command-line handling around the core.
- Crawler.Crawler.Fetch: does not state the invariant itself. `VisitExtends` and
  `ExtendsKeepsInv` give it for any visit.
- Crawler.Crawler.Crawl: does not state which entries the loop queues again or
  which seeds it actually fetches; its outcome is stated through `VisitAll`, and
  the per-turn queue facts are `Turn`'s.
- Crawler.Crawler.Turn: does not state that every visited same-domain URL is
  queued. `DomainTasks` states it.
