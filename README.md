# Crawler core in Dafny

This project models the core of a small web crawler. The crawler takes a list
of seed URLs and fetches each page, retrying failed requests. It extracts every
link from the pages and reports each link's host name (its *domain*) and
address. Finally it counts how often each (domain, address, seed) triple occurs
in a batch and turns the counts into rows for the database.

The project has six modules:

- `Common` (`common.dfy`) holds the shared vocabulary:
  - option and attempt values;
  - parsed page elements;
  - the answers of the name resolver;
  - an in-order subsequence relation, with its two lemmas.
- `UrlParse` (`urlparse.dfy`) is the part of Python 2's `urlparse` that the
  core relies on: the network location of a URL.
- `Parsing` (`parsing.dfy`) models `parsing.py`:
  - the `retry` decorator, as a loop proved against the first attempt that
    returns;
  - `request_page`;
  - `request_pages`;
  - `domain_from_url`;
  - `get_ip_from_url`;
  - `get_url_host_ip`;
  - the link generator `list_of_links_from_contents`;
  - `data_from_urls`.
- `Batch` (`batch.dfy`) models `group` and `prepare` of `main.py`:
  - counting a batch by key;
  - the rows written for the counts;
  - the proof that the counters add up to the batch size.
- `Utils` (`utils.dfy`) models `split_every` of `utils.py`.
- `LegacyParser` (`legacy_parser.dfy`) models the older pipeline of
  `parser.py`:
  - `Page.fetch_urls`;
  - `Page._get_domain_from_url`;
  - `Page._get_ip_from_url`;
  - `Page.get_urls_hosts_ips`;
  - its `request_pages` filter.

The outside world is passed in as functions:

- `fetch(url, k)` is the outcome of the k-th call that one `request_page(url)`
  makes to `requests.get`. `None` stands for an exception.
- `parse(content)` is the parsed page as a list of elements in document order.
  Each element has a tag and an optional `href`.
- `resolve(name)` is what `socket.gethostbyname(name)` does. It returns an
  address, raises `socket.gaierror`, or raises another `socket.error`.

Each Python generator that runs a loop over its input (`request_pages`,
`list_of_links_from_contents`, the loop of `data_from_urls`, `fetch_urls`,
`get_urls_hosts_ips`) is modelled as a method with a loop. The loop collects
what the generator yields, and its contract equals a recursive specification
function. Lemmas state the properties of that function. Two generators are
modelled by the recursive function alone, with no method:

- `prepare` of `main.py`, as `Batch.Prepare`;
- the generator expression that `request_pages` of `parser.py` returns, as
  `LegacyParser.RequestPages`.

A generator in `parser.py` can stop with an exception part-way through. Its
output is modelled as a `Stream`: the items yielded so far, plus a flag that
says whether it raised. `prepare` iterates over a dictionary, so its iteration
order is a parameter `order`. The lemmas about `prepare` hold for every order
that lists each key once.

Where the docstrings and the code disagree, the model follows the code. Two
examples:

- `get_ip_from_url` of `parsing.py` catches every `socket.error`. So a failed
  lookup gives `"0.0.0.0"`, even though tests.py:75 expects the empty string.
- The third field of `HostingInfo` is the domain, not the address.

## Model

| member | source | states |
|---|---|---|
| UrlParse.NetlocHasNoDelimiters | parsing.py:101-102 | the network location `urlparse` gives is no longer than the URL and contains no '/', '?' or '#' |
| UrlParse.NetlocOfHttp | parsing.py:101-102 | for "http://" followed by a host without '/', '?', '#' or ':', the network location is exactly that host |
| Parsing.FirstSuccess | parsing.py:46-57 | the attempt found is below `tries`, returns, and every earlier attempt raised; when none is found, every attempt below `tries` raised |
| Parsing.RetryOutcome | parsing.py:46-57 | the outcome is the value of some attempt below `tries` that returns after every earlier one raised, or `RetryException` (carrying `tries`) exactly when every attempt below `tries` raised |
| Parsing.CallsMade | parsing.py:46-57 | with `tries` positive the action is called between 1 and `tries` times and every call but the last raised; a last call before `tries` returned; with `tries` ≤ 0 it is never called |
| Parsing.Retry | parsing.py:32-61 | the retried call returns the value of the first attempt that returns, or raises `RetryException` once all `tries` attempts have raised; it makes exactly that many calls and sleeps `delay` after each failed one; the delay must not be negative |
| Parsing.RetryIgnoresLaterAttempts | parsing.py:47-49 | once a call has returned, allowing more attempts changes neither the result nor the number of calls |
| Parsing.RetrySucceedsAtFirstReturn | parsing.py:47-49 | an action that first returns on call k (k ≤ tries) gives that value after exactly k calls |
| Parsing.RetryExhaustion | parsing.py:56-57 | when every attempt raises, the outcome is `RetryException` after `tries` calls, or after none when `tries` ≤ 0 |
| Parsing.RequestScenarios | tests.py:133-148 | a URL that answers on the first call or on call `RETRY` succeeds; one that needs call `RETRY + 1` raises `RetryException` after `RETRY` calls |
| Parsing.DomainFromUrl | parsing.py:91-104 | the domain is the network location with one leading "www." removed, and unchanged when it does not start with "www." |
| Parsing.DomainIsSuffixOfNetloc | parsing.py:101-104 | the domain is always a suffix of the network location |
| Parsing.GetIpFromUrl | parsing.py:77-88 | the resolver's address when it has one; "0.0.0.0" on any socket error, `gaierror` or not |
| Parsing.GetUrlHostIp | parsing.py:64-74 | the HostingInfo keeps the URL as its link, carries the URL's domain, and has the address looked up for that domain (not for the URL); no socket error escapes (the errors this model cannot express are listed under Left out) |
| Parsing.RequestPage | parsing.py:107-117 | the outcome is that of `requests.get` under `retry` with `RETRY` attempts: the first page it returns, or `RetryException` when all of them raise (`DELAY` is passed to `Retry`; the calls made and the time slept are not part of this contract) |
| Parsing.RequestPages | parsing.py:120-137 | yields, in seed order, the content of each seed whose request succeeded; a `RetryException` drops only that seed |
| Parsing.FetchedPagesOfReachedSeeds | parsing.py:131-137 | there are as many contents as reached seeds, no more than seeds, and the i-th content is the page of the i-th reached seed |
| Parsing.ReachedSeedsSucceeded | parsing.py:131-137 | a seed is reached if and only if it is in the input and its request succeeds |
| Parsing.ReachedSeedsInOrder | parsing.py:131-134 | the reached seeds are a subsequence of the seeds, in their order |
| Parsing.ReachedSeedsCounted | parsing.py:131-137 | a seed whose request succeeds is reached once for each time it is listed; any other seed is never reached |
| Parsing.TaggedPairs | parsing.py:156-160 | the links of one page are the page's hrefs, each paired with the same seed |
| Parsing.LinksOfPage | parsing.py:155-160 | the inner loop yields (seed, href) for each element with a non-empty href, in document order |
| Parsing.ListOfLinksFromContents | parsing.py:140-160 | walks seeds and contents side by side (`izip_longest`), skips empty contents, and yields exactly the links of the remaining pages in order |
| Parsing.LinksPastContents | parsing.py:152-154 | positions with a seed but no content add no links |
| Parsing.LinksAreAllHrefs | parsing.py:148-160 | the hrefs of the links are exactly the non-empty hrefs of the non-empty contents, in content then document order, whatever the seeds; none is empty |
| Parsing.HrefsNonEmpty | parsing.py:156-160 | an empty `href` is never yielded |
| Parsing.LinksNameSeedsOrNothing | parsing.py:148-152 | the seed attached to a link is one of the seeds, or none |
| Parsing.LinksSeededFirst | parsing.py:148-152 | the links are those of the positions that have a seed, each carrying a seed, followed by those of the contents past the last seed, each carrying none |
| Parsing.TestPageHrefs | tests.py:157-161 | the hrefs of the three test pages, including the `<img>`'s and excluding the `<a>` without one |
| Parsing.FourLinksScenario | tests.py:157-165 | the three test pages give four links, with no seed attached |
| Parsing.LinksMisattributedAfterFailure | parsing.py:171-173 | when the first seed cannot be fetched, the second seed's links are reported under the first seed, because contents are paired with seeds by position after failures are dropped |
| Parsing.ResolvedKeepsEveryLink | parsing.py:173-177 | `if result` filters nothing: the i-th output is the i-th link's seed with that link's HostingInfo |
| Parsing.ResolveLinks | parsing.py:173-177 | the loop of `data_from_urls` pairs each link's seed with its HostingInfo, in order |
| Parsing.DataFromUrls | parsing.py:163-177 | the whole stage: fetch the seeds, extract links, resolve each link |
| Parsing.MalformedUrlScenario | tests.py:68-75 | "http:/ww.vk.com" has no network location, so its domain is "" and its address "0.0.0.0" |
| Parsing.DomainOfHttpUrl | tests.py:83-87 | the domain of "http://" plus a plain host is that host, less a leading "www." |
| Parsing.DomainOfWwwUrl | tests.py:77-81 | "http://www." plus a plain host gives exactly that host ("http://www.vk.com" gives "vk.com") |
| Parsing.HostInfoOfHttpUrl | tests.py:55-66 | for "http://" plus a plain host without "www." (such as "vk.com"), the link is the URL, the domain is the host, and the address is the resolver's answer for the host |
| Batch.Group | main.py:18-30 | `group` returns the map from each (domain, ip, seed) key to its number of occurrences in the batch |
| Batch.OccursIffKey | main.py:27-28 | a key occurs at least once if and only if some item carries it |
| Batch.GroupedSnoc | main.py:27-28 | one more item increments the count of its own key, starting from 0, and of no other |
| Batch.GroupCountsEveryItem | main.py:18-30 | keys present are exactly those that occur; each maps to its count, which is at least 1; every item's key is present |
| Batch.OccurrencesOfPermutation | main.py:27-28 | a key's count depends only on the multiset of items |
| Batch.GroupOrderIndependent | main.py:25-30 | reordering a batch leaves its grouping unchanged |
| Batch.GroupConservesCount | main.py:25-30 | the counts add up to the number of items in the batch |
| Batch.SomeOrder | main.py:42 | every grouped map has an iteration order that lists each key once |
| Batch.Prepare | main.py:33-43 | one row per key listed by the dictionary's iteration order, for keys whose url has an id |
| Batch.PrepareRows | main.py:42-43 | the i-th row is the i-th key listed, with its domain, ip and count kept and its url replaced by its id |
| Batch.PrepareOneRowPerKey | main.py:33-43 | `prepare` yields exactly one row per grouped key: as many rows as keys, and every key's row is among them |
| Batch.PrepareKeepsTotal | main.py:42-43 | the counters of the rows add up to the sum of the grouped counts |
| Batch.BatchCountersAddUp | main.py:18-43 | `group` then `prepare`, in any dictionary order: the counters written for a batch add up to its size |
| Utils.SplitEvery | utils.py:8-20 | the chunks laid end to end are the input; each chunk is non-empty and at most n long; all but the last are exactly n long; there are ⌈len/n⌉ chunks; n = 0 yields nothing |
| LegacyParser.DomainFromUrlAsWritten | parser.py:30-43 | the domain is a suffix of the network location, and the whole of it exactly when the network location does not start with "www." |
| LegacyParser.DomainLosesHostCharacter | parser.py:30-43 | as written, a network location starting with "www." loses one character more than the prefix; any other is kept whole |
| LegacyParser.DomainStripsFiveCounterexample | parser.py:40-41 | for every host h after "www.", the code as written gives h without its first character, while `domain_from_url` of parsing.py gives h |
| LegacyParser.GetIpFromUrl | parser.py:62-73 | the address when resolution succeeds; `None` exactly on `socket.gaierror`; any other socket error escapes |
| LegacyParser.Anchors | parser.py:59 | `find_all('a')` keeps only `<a>` elements and no more elements than the document has |
| LegacyParser.AnchorsInOrder | parser.py:59 | the anchors keep document order |
| LegacyParser.AnchorsAreTheAElements | parser.py:59 | an element is kept if and only if it is an `<a>` element of the document |
| LegacyParser.AnchorsKeepEveryA | parser.py:59 | each `<a>` element is kept as many times as it occurs in the document, and no other element is kept |
| LegacyParser.FetchUrls | parser.py:54-60 | one value per anchor, in order: its href, or `None` when it has none |
| LegacyParser.GetUrlsHostsIps | parser.py:75-86 | the triples of the page's anchors in order. An href whose lookup raises `gaierror` is skipped. An anchor without href, or a lookup raising any other socket error, ends the generator |
| LegacyParser.Step | parser.py:80-86 | one href: the generator raises exactly when the href is missing or its lookup raises a socket error other than `gaierror`; it yields the triple (href, as-written domain, resolver's address) exactly when the href resolves to a non-empty address and its as-written domain is non-empty, and yields nothing otherwise |
| LegacyParser.Triples | parser.py:75-86 | the generator yields at most one triple per href |
| LegacyParser.TriplesAreComplete | parser.py:80-86 | every triple yielded comes from an href of the page; its domain is the as-written `_get_domain_from_url` of that href, and non-empty; its address is the resolver's non-empty answer for the whole href |
| LegacyParser.TriplesYieldEveryCompleteHref | parser.py:80-86 | every href before the first fatal one that resolves to a non-empty address and has a non-empty as-written domain has its triple yielded |
| LegacyParser.TriplesInOrder | parser.py:80-86 | the triples keep the order of the hrefs they come from |
| LegacyParser.TriplesRaise | parser.py:80-83 | the generator raises if and only if some anchor has no href or its lookup raises a socket error other than `gaierror` |
| LegacyParser.RequestPages | parser.py:109-117 | the bodies yielded are exactly those of the responses that are not `None`, and there are no more bodies than responses |
| LegacyParser.RequestPagesKeepsEveryBody | parser.py:115-117 | each body is yielded exactly as many times as a response carrying it arrives |
| LegacyParser.RequestPagesInOrder | parser.py:115-117 | the bodies keep the order in which responses arrive |

## Left out

- Logging, `print` and `time.sleep`. The time `Retry` would sleep is returned
  as a number instead.
- `Parsing.Retry`: requires a delay that is not negative. With a negative
  delay, `time.sleep` raises `ValueError` after the first failed call, and
  that path is not modelled. `request_page` always passes `DELAY`, which is 1.
- The real network, HTML parser and resolver. `requests.get`,
  `grequests.imap`, BeautifulSoup and `socket.gethostbyname` are parameters.
  `parsers.parser_factory` and `parser.parse` are the `parse` parameter.
- `UrlParse`: covers only as much of `urlparse` as finding the network
  location needs.
  - It does not lower-case the scheme.
  - It does not check IPv6 brackets.
  - It does not split off `params`.

  So `urlparse` never raises in the model. In Python, a URL with unbalanced
  IPv6 brackets makes it raise `ValueError`. That error escapes
  `domain_from_url` and ends `data_from_urls`.
- `Parsing.GetUrlHostIp`: does not model errors other than `socket.error`.
  The resolver's answer is an address, `gaierror` or another `socket.error`.
  Any other exception from `gethostbyname` is not caught by parsing.py:86 and
  would escape. A host name that cannot be encoded is one example.
- `Parsing.RequestPage`: `fetch(url, k)` depends only on the url and the
  attempt number. So a seed listed twice gets the same responses both times.
  In Python each `requests.get` is independent, and `parsing.main` takes its
  seeds from the command line, where they may repeat.
  `Parsing.ReachedSeedsSucceeded` holds only under this assumption.
- The seeds are a Python `set` in `main.main`, so their order is not defined.
  The model takes them as a sequence in whatever order the set yields them.
- `LegacyParser.RequestPages`: `grequests.imap` yields responses as they
  complete. The model takes the responses in that order as its input.
- `Batch.Prepare`: requires that every grouped url has an id. The `KeyError`
  that `url_ids[url]` raises at main.py:43 for a url without an id is not
  modelled.
- `Batch.Prepare`: cannot produce a row for a link with no seed. Its url would
  be `None`, and `url_ids[None]` raises.
- `Utils.SplitEvery`: takes `n` as a `nat`, because `islice` raises on a
  negative count.
- `main.main` of `main.py`, `parser.main`, and everything these files import:
  - connector.py;
  - db_api.py;
  - host_info.py;
  - patch.py;
  - server.py;
  - deleter.py;
  - local.py.

  They do input and output or run the program, and are not part of this model.
- tests.py:58 unpacks a `HostingInfo` as (url, host, ip). The fields are
  (link, ip, domain), so its `host` is the address. `Parsing.HostInfoOfHttpUrl`
  states the result by field name.
- tests.py:75 expects the empty string as the address of a URL whose lookup
  fails. The code returns "0.0.0.0", and `Parsing.MalformedUrlScenario` follows
  the code.

## Findings

| source | as written | input that shows it | evidently intended | confidence | as-written member | corrected member |
|---|---|---|---|---|---|---|
| parser.py:40-41 | a network location that starts with "www." loses its first five characters | "http://www.vk.com" gives domain "k.com" | drop only the four characters of "www.", giving "vk.com", as parsing.py:104 does | not executed | LegacyParser.DomainStripsFiveCounterexample | Parsing.DomainOfWwwUrl |

`LegacyParser` models `parser.py` as written: `GetUrlsHostsIps` and the
lemmas about it use `DomainFromUrlAsWritten`. The corrected domain is
`Parsing.DomainFromUrl`, the function `parsing.py` uses.
