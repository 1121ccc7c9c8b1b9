/** The crawler's fetch, extract and resolve stages (`parsing.py`): the
    retry loop around page requests, domain and address resolution, and the
    two stream filters that turn seed URLs into (seed, link) pairs.

    The network, the HTML parser and the name resolver are parameters:
    - `fetch(url, k)` is the outcome of the k-th call (from 0) that one
      `request_page(url)` makes to `requests.get`: `None` when it raises;
    - `parse(content)` lists the elements of the parsed page, in document
      order;
    - `resolve(host)` is what `socket.gethostbyname(host)` answers. */
module Parsing {
  import opened Common
  import UrlParse

  /** Seconds slept after a failed attempt (`DELAY`). */
  const Delay := 1
  /** Attempts `request_page` is given (`RETRY`). */
  const Retries := 3
  /** The address reported when name resolution fails. */
  const UnknownIp := "0.0.0.0"
  const Www := "www."

  /** What a retried call ends with: the first value returned, or the
      `RetryException` raised once every attempt has failed. */
  datatype Outcome<+T> = Success(value: T) | RetryExhausted(tries: int)

  /** The `HostingInfo` namedtuple, fields in the source's order. */
  datatype HostingInfo = HostingInfo(link: Url, ip: string, domain: string)

  type Link = (Option<Url>, string)

  // ---------------------------------------------------------------------
  // retry

  /** The first attempt below `tries` at which `action` returns. */
  function FirstSuccess<T>(action: nat -> Option<T>, tries: int): (k: Option<nat>)
    ensures k.Some? ==> k.value < tries && action(k.value).Some?
    ensures k.Some? ==> forall j :: 0 <= j < k.value ==> action(j).None?
    ensures k.None? ==> forall j :: 0 <= j < tries ==> action(j).None?
    decreases tries
  {
    if tries <= 0 then None
    else
      var earlier := FirstSuccess(action, tries - 1);
      if earlier.Some? then earlier
      else if action(tries - 1).Some? then Some(tries - 1)
      else None
  }

  /** What the retried call ends with: the value of an attempt below
      `tries` that returns after every earlier one raised, or
      `RetryException` exactly when every attempt below `tries` raised. */
  function RetryOutcome<T>(action: nat -> Option<T>, tries: int): (r: Outcome<T>)
    ensures r.Success? ==> exists k :: 0 <= k < tries && action(k) == Some(r.value) && forall j :: 0 <= j < k ==> action(j).None?
    ensures r.RetryExhausted? <==> forall j :: 0 <= j < tries ==> action(j).None?
    ensures r.RetryExhausted? ==> r.tries == tries
  {
    match FirstSuccess(action, tries)
    case Some(k) => Success(action(k).value)
    case None => RetryExhausted(tries)
  }

  /** How many times the retried call invokes `action`: at least once and
      at most `tries` times when `tries` is positive, never otherwise, and
      every call but the last one raised. */
  function CallsMade<T>(action: nat -> Option<T>, tries: int): (c: nat)
    ensures tries <= 0 ==> c == 0
    ensures tries > 0 ==> 1 <= c <= tries
    ensures forall j :: 0 <= j < c - 1 ==> action(j).None?
    ensures 0 < c < tries ==> action(c - 1).Some?
  {
    match FirstSuccess(action, tries)
    case Some(k) => k + 1
    case None => if tries > 0 then tries else 0
  }

  /** `retry(delay, tries)` applied to `action`: calls it until one call
      returns, at most `tries` times, sleeping `delay` after each failure.
      `calls` counts the calls made and `slept` the time slept
      (`time.sleep` rejects a negative delay). */
  method Retry<T>(action: nat -> Option<T>, delay: int, tries: int) returns (r: Outcome<T>, calls: nat, slept: int)
    requires delay >= 0
    ensures r == RetryOutcome(action, tries)
    ensures calls == CallsMade(action, tries)
    ensures slept == delay * (if r.Success? then calls - 1 else calls)
  {
    var counter := 0;
    slept := 0;
    while counter < tries
      invariant 0 <= counter && (tries > 0 ==> counter <= tries) && (tries <= 0 ==> counter == 0)
      invariant slept == delay * counter
      invariant forall j :: 0 <= j < counter ==> action(j).None?
    {
      var attempt := action(counter);
      if attempt.Some? {
        RetrySucceedsAtFirstReturn(action, tries, counter + 1);
        r, calls := Success(attempt.value), counter + 1;
        return;
      }
      slept := slept + delay;
      counter := counter + 1;
    }
    r, calls := RetryExhausted(tries), counter;
    RetryExhaustion(action, tries);
  }

  /** Once the call has succeeded at attempt `k`, granting more attempts
      changes neither the result nor the number of calls. */
  lemma {:induction false} RetryIgnoresLaterAttempts<T>(action: nat -> Option<T>, tries: int, more: int)
    requires FirstSuccess(action, tries).Some?
    requires tries <= more
    ensures FirstSuccess(action, more) == FirstSuccess(action, tries)
    ensures RetryOutcome(action, more) == RetryOutcome(action, tries)
    ensures CallsMade(action, more) == CallsMade(action, tries)
    decreases more - tries
  {
    if more > tries {
      RetryIgnoresLaterAttempts(action, tries, more - 1);
    }
  }

  /** An action that first returns at attempt number `k` (counting from 1)
      with `k <= tries` makes the retried call succeed with that value
      after exactly `k` calls. */
  lemma RetrySucceedsAtFirstReturn<T>(action: nat -> Option<T>, tries: int, k: nat)
    requires 1 <= k <= tries
    requires action(k - 1).Some?
    requires forall j :: 0 <= j < k - 1 ==> action(j).None?
    ensures RetryOutcome(action, tries) == Success(action(k - 1).value)
    ensures CallsMade(action, tries) == k
  {
  }

  /** When every attempt raises, `RetryException` is raised after exactly
      `tries` calls; with `tries <= 0` the action is never called. */
  lemma RetryExhaustion<T>(action: nat -> Option<T>, tries: int)
    requires forall j :: 0 <= j < tries ==> action(j).None?
    ensures RetryOutcome(action, tries) == RetryExhausted(tries)
    ensures CallsMade(action, tries) == if tries > 0 then tries else 0
  {
  }

  /** The URLs of the request tests: one that returns on the first call,
      one that returns on call `RETRY`, one that would need `RETRY + 1`. */
  function ScriptedGet(succeedsAt: nat): nat -> Option<bool> {
    k => if k + 1 == succeedsAt then Some(true) else None
  }

  lemma RequestScenarios()
    ensures RetryOutcome(ScriptedGet(1), Retries) == Success(true)
    ensures RetryOutcome(ScriptedGet(Retries), Retries) == Success(true)
    ensures RetryOutcome(ScriptedGet(Retries + 1), Retries) == RetryExhausted(Retries)
    ensures CallsMade(ScriptedGet(Retries + 1), Retries) == Retries
  {
    RetrySucceedsAtFirstReturn(ScriptedGet(1), Retries, 1);
    RetrySucceedsAtFirstReturn(ScriptedGet(Retries), Retries, Retries);
    RetryExhaustion(ScriptedGet(Retries + 1), Retries);
  }

  // ---------------------------------------------------------------------
  // domain and address resolution

  /** `domain_from_url`: the URL's network location with one leading
      "www." removed. */
  function DomainFromUrl(url: Url): (d: string)
    ensures StartsWith(UrlParse.Netloc(url), Www) ==> UrlParse.Netloc(url) == Www + d
    ensures !StartsWith(UrlParse.Netloc(url), Www) ==> d == UrlParse.Netloc(url)
  {
    var domain := UrlParse.Netloc(url);
    if StartsWith(domain, Www) then domain[4..] else domain
  }

  /** The domain is always a suffix of the network location. */
  lemma DomainIsSuffixOfNetloc(url: Url)
    ensures |DomainFromUrl(url)| <= |UrlParse.Netloc(url)|
    ensures DomainFromUrl(url) == UrlParse.Netloc(url)[|UrlParse.Netloc(url)| - |DomainFromUrl(url)|..]
  {
  }

  /** `get_ip_from_url`: the resolver's address for `domain`, or the
      sentinel when resolution raises any socket error. */
  function GetIpFromUrl(resolve: string -> Lookup, domain: string): (ip: string)
    ensures resolve(domain).Address? ==> ip == resolve(domain).ip
    ensures !resolve(domain).Address? ==> ip == UnknownIp
  {
    match resolve(domain)
    case Address(ip) => ip
    case GaiError => UnknownIp
    case SocketError => UnknownIp
  }

  /** `get_url_host_ip`: the HostingInfo of one link. The address is
      looked up for the link's domain, never for the link itself, and no
      error escapes. */
  function GetUrlHostIp(resolve: string -> Lookup, url: Url): (h: HostingInfo)
    ensures h.link == url
    ensures h.domain == DomainFromUrl(url)
    ensures h.ip == GetIpFromUrl(resolve, DomainFromUrl(url))
  {
    var domain := DomainFromUrl(url);
    HostingInfo(link := url, ip := GetIpFromUrl(resolve, domain), domain := domain)
  }

  // ---------------------------------------------------------------------
  // requesting pages

  /** The attempts one `request_page(url)` makes. */
  function Attempts(fetch: (Url, nat) -> Option<Content>, url: Url): nat -> Option<Content> {
    (k: nat) => fetch(url, k)
  }

  /** What `request_page(url)` ends with. */
  function PageOutcome(fetch: (Url, nat) -> Option<Content>, url: Url): Outcome<Content> {
    RetryOutcome(Attempts(fetch, url), Retries)
  }

  /** `request_page`: `requests.get` wrapped in `retry(DELAY, RETRY)`. */
  method RequestPage(fetch: (Url, nat) -> Option<Content>, url: Url) returns (r: Outcome<Content>)
    ensures r == PageOutcome(fetch, url)
  {
    var calls, slept;
    r, calls, slept := Retry(Attempts(fetch, url), Delay, Retries);
  }

  /** The contents `request_pages(urls)` yields, as a specification. */
  function Fetched(fetch: (Url, nat) -> Option<Content>, urls: seq<Url>): seq<Content> {
    if urls == [] then []
    else
      var outcome := PageOutcome(fetch, urls[|urls| - 1]);
      Fetched(fetch, urls[..|urls| - 1]) + if outcome.Success? then [outcome.value] else []
  }

  /** The seeds whose request succeeded, in input order. */
  function Reached(fetch: (Url, nat) -> Option<Content>, urls: seq<Url>): seq<Url> {
    if urls == [] then []
    else
      var url := urls[|urls| - 1];
      Reached(fetch, urls[..|urls| - 1]) + if PageOutcome(fetch, url).Success? then [url] else []
  }

  /** `request_pages`: the content of every page whose request succeeded;
      a `RetryException` only drops that URL. */
  method RequestPages(fetch: (Url, nat) -> Option<Content>, urls: seq<Url>) returns (contents: seq<Content>)
    ensures contents == Fetched(fetch, urls)
  {
    contents := [];
    var i := 0;
    while i < |urls|
      invariant 0 <= i <= |urls|
      invariant contents == Fetched(fetch, urls[..i])
    {
      assert urls[..i + 1][..i] == urls[..i];
      var page := RequestPage(fetch, urls[i]);
      if page.Success? {
        contents := contents + [page.value];
      }
      i := i + 1;
    }
    assert urls[..|urls|] == urls;
  }

  /** The i-th content yielded is the page of the i-th seed that could be
      reached. */
  lemma {:induction false} FetchedPagesOfReachedSeeds(fetch: (Url, nat) -> Option<Content>, urls: seq<Url>)
    ensures |Fetched(fetch, urls)| == |Reached(fetch, urls)| <= |urls|
    ensures forall i :: 0 <= i < |Reached(fetch, urls)| ==>
              PageOutcome(fetch, Reached(fetch, urls)[i]) == Success(Fetched(fetch, urls)[i])
  {
    if urls != [] {
      FetchedPagesOfReachedSeeds(fetch, urls[..|urls| - 1]);
    }
  }

  /** The reached seeds are exactly the seeds whose request succeeded. */
  lemma {:induction false} ReachedSeedsSucceeded(fetch: (Url, nat) -> Option<Content>, urls: seq<Url>, u: Url)
    ensures u in Reached(fetch, urls) <==> u in urls && PageOutcome(fetch, u).Success?
  {
    if urls != [] {
      var init := urls[..|urls| - 1];
      assert urls == init + [urls[|urls| - 1]];
      ReachedSeedsSucceeded(fetch, init, u);
    }
  }

  /** A seed whose request succeeds is reached once for each time it is
      listed; any other seed never is. */
  lemma {:induction false} ReachedSeedsCounted(fetch: (Url, nat) -> Option<Content>, urls: seq<Url>)
    ensures forall u :: multiset(Reached(fetch, urls))[u] == if PageOutcome(fetch, u).Success? then multiset(urls)[u] else 0
  {
    if urls != [] {
      var init := urls[..|urls| - 1];
      assert urls == init + [urls[|urls| - 1]];
      ReachedSeedsCounted(fetch, init);
    }
  }

  /** The reached seeds keep their input order. */
  lemma {:induction false} ReachedSeedsInOrder(fetch: (Url, nat) -> Option<Content>, urls: seq<Url>)
    ensures IsSubsequence(Reached(fetch, urls), urls)
  {
    if urls != [] {
      var init, url := urls[..|urls| - 1], urls[|urls| - 1];
      ReachedSeedsInOrder(fetch, init);
      var before := Reached(fetch, init);
      assert init + [url] == urls;
      if PageOutcome(fetch, url).Success? {
        assert Reached(fetch, urls) == before + [url];
        assert (before + [url])[..|before|] == before;
      } else {
        assert Reached(fetch, urls) == before;
        SubsequenceExtend(before, init, url);
      }
    }
  }

  // ---------------------------------------------------------------------
  // extracting links

  /** The non-empty href values of the elements that carry one
      (`find_all(href=True)` followed by `if link`), in document order. */
  function Hrefs(elements: seq<Element>): seq<string> {
    if elements == [] then []
    else
      var href := elements[|elements| - 1].href;
      Hrefs(elements[..|elements| - 1]) + if href.Some? && href.value != "" then [href.value] else []
  }

  /** The seed `izip_longest` pairs with position `i`: `None` past the end. */
  function SeedAt(urls: seq<Url>, i: nat): Option<Url> {
    if i < |urls| then Some(urls[i]) else None
  }

  /** The content `izip_longest` pairs with position `i`: `None` past the end. */
  function ContentAt(contents: seq<Content>, i: nat): Option<Content> {
    if i < |contents| then Some(contents[i]) else None
  }

  /** Each href paired with the seed. */
  function Tagged(seed: Option<Url>, hrefs: seq<string>): (r: seq<Link>)
    ensures |r| == |hrefs|
  {
    if hrefs == [] then [] else Tagged(seed, hrefs[..|hrefs| - 1]) + [(seed, hrefs[|hrefs| - 1])]
  }

  lemma {:induction false} TaggedPairs(seed: Option<Url>, hrefs: seq<string>)
    ensures forall j :: 0 <= j < |hrefs| ==> Tagged(seed, hrefs)[j] == (seed, hrefs[j])
  {
    if hrefs != [] {
      var init := hrefs[..|hrefs| - 1];
      TaggedPairs(seed, init);
      var r := Tagged(seed, hrefs);
      forall j | 0 <= j < |hrefs| ensures r[j] == (seed, hrefs[j]) {
        if j < |init| {
          assert hrefs[j] == init[j];
        }
      }
    }
  }

  /** The links found at one position; falsy or missing contents give none. */
  function PageLinks(seed: Option<Url>, content: Option<Content>, parse: Content -> seq<Element>): seq<Link> {
    if content.None? || content.value == "" then [] else Tagged(seed, Hrefs(parse(content.value)))
  }

  /** The links found at the first `n` positions of the zipped stream. */
  function LinksUpTo(urls: seq<Url>, contents: seq<Content>, parse: Content -> seq<Element>, n: nat): seq<Link> {
    if n == 0 then []
    else LinksUpTo(urls, contents, parse, n - 1) + PageLinks(SeedAt(urls, n - 1), ContentAt(contents, n - 1), parse)
  }

  function Width(urls: seq<Url>, contents: seq<Content>): nat {
    if |urls| < |contents| then |contents| else |urls|
  }

  /** What `list_of_links_from_contents(contents, urls)` yields. */
  function Links(urls: seq<Url>, contents: seq<Content>, parse: Content -> seq<Element>): seq<Link> {
    LinksUpTo(urls, contents, parse, Width(urls, contents))
  }

  /** `list_of_links_from_contents`: walks seeds and contents side by side
      (`izip_longest`), skips falsy contents and yields (seed, href) for
      every element with a non-empty href. */
  method ListOfLinksFromContents(urls: seq<Url>, contents: seq<Content>, parse: Content -> seq<Element>)
    returns (links: seq<Link>)
    ensures links == Links(urls, contents, parse)
  {
    links := [];
    var width := Width(urls, contents);
    var i := 0;
    while i < width
      invariant 0 <= i <= width
      invariant links == LinksUpTo(urls, contents, parse, i)
    {
      var seed, content := SeedAt(urls, i), ContentAt(contents, i);
      var found: seq<Link> := [];
      if content.Some? && content.value != "" {
        found := LinksOfPage(seed, parse(content.value));
      }
      LinksStep(urls, contents, parse, i);
      links := links + found;
      i := i + 1;
    }
  }

  /** The inner loop of `list_of_links_from_contents`: (seed, href) for
      every element with a non-empty href, in document order. */
  method LinksOfPage(seed: Option<Url>, elements: seq<Element>) returns (found: seq<Link>)
    ensures found == Tagged(seed, Hrefs(elements))
  {
    found := [];
    var j := 0;
    while j < |elements|
      invariant 0 <= j <= |elements|
      invariant found == Tagged(seed, Hrefs(elements[..j]))
    {
      TaggedStep(seed, elements, j);
      var link := elements[j].href;
      if link.Some? && link.value != "" {
        found := found + [(seed, link.value)];
      }
      j := j + 1;
    }
    assert elements[..|elements|] == elements;
  }

  /** One more position adds the links of its page. */
  lemma LinksStep(urls: seq<Url>, contents: seq<Content>, parse: Content -> seq<Element>, i: nat)
    ensures LinksUpTo(urls, contents, parse, i + 1)
            == LinksUpTo(urls, contents, parse, i) + PageLinks(SeedAt(urls, i), ContentAt(contents, i), parse)
  {
  }

  /** One more element adds its link, if it has a non-empty href. */
  lemma TaggedStep(seed: Option<Url>, elements: seq<Element>, j: nat)
    requires j < |elements|
    ensures var href := elements[j].href;
            Tagged(seed, Hrefs(elements[..j + 1]))
            == Tagged(seed, Hrefs(elements[..j])) + if href.Some? && href.value != "" then [(seed, href.value)] else []
  {
    assert elements[..j + 1][..j] == elements[..j];
    var hrefs := Hrefs(elements[..j]);
    var href := elements[j].href;
    if href.Some? && href.value != "" {
      assert Hrefs(elements[..j + 1]) == hrefs + [href.value];
      assert (hrefs + [href.value])[..|hrefs|] == hrefs;
    } else {
      assert Hrefs(elements[..j + 1]) == hrefs;
    }
  }

  /** Every non-empty href of every non-empty content, in content order and
      then element order. */
  function AllHrefs(contents: seq<Content>, parse: Content -> seq<Element>): seq<string> {
    if contents == [] then []
    else
      var content := contents[|contents| - 1];
      AllHrefs(contents[..|contents| - 1], parse) + if content == "" then [] else Hrefs(parse(content))
  }

  function HrefsOfLinks(links: seq<Link>): (r: seq<string>)
    ensures |r| == |links|
    ensures forall j :: 0 <= j < |r| ==> r[j] == links[j].1
  {
    seq(|links|, j requires 0 <= j < |links| => links[j].1)
  }

  lemma HrefsOfLinksConcat(a: seq<Link>, b: seq<Link>)
    ensures HrefsOfLinks(a + b) == HrefsOfLinks(a) + HrefsOfLinks(b)
  {
  }

  lemma {:induction false} LinksUpToHrefs(urls: seq<Url>, contents: seq<Content>, parse: Content -> seq<Element>, n: nat)
    requires n <= |contents|
    ensures HrefsOfLinks(LinksUpTo(urls, contents, parse, n)) == AllHrefs(contents[..n], parse)
  {
    if n > 0 {
      LinksUpToHrefs(urls, contents, parse, n - 1);
      var page := PageLinks(SeedAt(urls, n - 1), ContentAt(contents, n - 1), parse);
      HrefsOfLinksConcat(LinksUpTo(urls, contents, parse, n - 1), page);
      assert contents[..n][..n - 1] == contents[..n - 1];
      var content := contents[n - 1];
      if content != "" {
        TaggedPairs(SeedAt(urls, n - 1), Hrefs(parse(content)));
        assert HrefsOfLinks(page) == Hrefs(parse(content));
      }
    }
  }

  /** Positions past the last content contribute no links. */
  lemma {:induction false} LinksPastContents(urls: seq<Url>, contents: seq<Content>, parse: Content -> seq<Element>, n: nat)
    requires |contents| <= n
    ensures LinksUpTo(urls, contents, parse, n) == LinksUpTo(urls, contents, parse, |contents|)
  {
    if n > |contents| {
      LinksPastContents(urls, contents, parse, n - 1);
    }
  }

  /** The links yielded carry exactly the non-empty hrefs of the non-empty
      contents, one per element, in content order and then element order,
      whatever the seeds; each names a seed of `urls` or none at all. */
  lemma LinksAreAllHrefs(urls: seq<Url>, contents: seq<Content>, parse: Content -> seq<Element>)
    ensures HrefsOfLinks(Links(urls, contents, parse)) == AllHrefs(contents, parse)
    ensures |Links(urls, contents, parse)| == |AllHrefs(contents, parse)|
    ensures forall j :: 0 <= j < |Links(urls, contents, parse)| ==> Links(urls, contents, parse)[j].1 != ""
  {
    LinksPastContents(urls, contents, parse, Width(urls, contents));
    LinksUpToHrefs(urls, contents, parse, |contents|);
    assert contents[..|contents|] == contents;
    AllHrefsNonEmpty(contents, parse);
    var links := Links(urls, contents, parse);
    forall j | 0 <= j < |links| ensures links[j].1 != "" {
      assert links[j].1 == AllHrefs(contents, parse)[j];
    }
  }

  lemma {:induction false} HrefsNonEmpty(elements: seq<Element>)
    ensures forall j :: 0 <= j < |Hrefs(elements)| ==> Hrefs(elements)[j] != ""
  {
    if elements != [] {
      HrefsNonEmpty(elements[..|elements| - 1]);
    }
  }

  lemma {:induction false} AllHrefsNonEmpty(contents: seq<Content>, parse: Content -> seq<Element>)
    ensures forall j :: 0 <= j < |AllHrefs(contents, parse)| ==> AllHrefs(contents, parse)[j] != ""
  {
    if contents != [] {
      AllHrefsNonEmpty(contents[..|contents| - 1], parse);
      HrefsNonEmpty(parse(contents[|contents| - 1]));
    }
  }

  /** The seed attached to a link is one of the seeds or none. */
  lemma {:induction false} LinksNameSeedsOrNothing(urls: seq<Url>, contents: seq<Content>, parse: Content -> seq<Element>, n: nat)
    ensures forall j :: 0 <= j < |LinksUpTo(urls, contents, parse, n)| ==>
              LinksUpTo(urls, contents, parse, n)[j].0.None? || LinksUpTo(urls, contents, parse, n)[j].0.value in urls
  {
    if n > 0 {
      LinksNameSeedsOrNothing(urls, contents, parse, n - 1);
      var content := ContentAt(contents, n - 1);
      if content.Some? && content.value != "" {
        TaggedPairs(SeedAt(urls, n - 1), Hrefs(parse(content.value)));
      }
    }
  }

  /** Every link of one page carries the seed it is paired with. */
  lemma PageLinksSeed(seed: Option<Url>, content: Option<Content>, parse: Content -> seq<Element>)
    ensures forall j :: 0 <= j < |PageLinks(seed, content, parse)| ==> PageLinks(seed, content, parse)[j].0 == seed
  {
    if content.Some? && content.value != "" {
      TaggedPairs(seed, Hrefs(parse(content.value)));
    }
  }

  /** The links found at positions that have a seed all carry one. */
  lemma {:induction false} LinksWithinSeeds(urls: seq<Url>, contents: seq<Content>, parse: Content -> seq<Element>, n: nat)
    requires n <= |urls|
    ensures forall j :: 0 <= j < |LinksUpTo(urls, contents, parse, n)| ==> LinksUpTo(urls, contents, parse, n)[j].0.Some?
  {
    if n > 0 {
      LinksWithinSeeds(urls, contents, parse, n - 1);
      var before := LinksUpTo(urls, contents, parse, n - 1);
      var added := PageLinks(SeedAt(urls, n - 1), ContentAt(contents, n - 1), parse);
      PageLinksSeed(SeedAt(urls, n - 1), ContentAt(contents, n - 1), parse);
      var after := before + added;
      assert LinksUpTo(urls, contents, parse, n) == after;
      forall j | 0 <= j < |after| ensures after[j].0.Some? {
        if j >= |before| {
          assert after[j] == added[j - |before|];
        }
      }
    }
  }

  /** The links found at positions `m` up to `n` of the zipped stream. */
  function LinksBetween(urls: seq<Url>, contents: seq<Content>, parse: Content -> seq<Element>, m: nat, n: nat): seq<Link>
    requires m <= n
    decreases n - m
  {
    if n == m then []
    else LinksBetween(urls, contents, parse, m, n - 1) + PageLinks(SeedAt(urls, n - 1), ContentAt(contents, n - 1), parse)
  }

  /** The links of the first `n` positions are those of the first `m`
      followed by those of the positions in between. */
  lemma {:induction false} LinksSplit(urls: seq<Url>, contents: seq<Content>, parse: Content -> seq<Element>, m: nat, n: nat)
    requires m <= n
    ensures LinksUpTo(urls, contents, parse, n) == LinksUpTo(urls, contents, parse, m) + LinksBetween(urls, contents, parse, m, n)
    decreases n - m
  {
    if n > m {
      LinksSplit(urls, contents, parse, m, n - 1);
    }
  }

  /** The links of positions past the last seed carry no seed. */
  lemma {:induction false} LinksPastSeeds(urls: seq<Url>, contents: seq<Content>, parse: Content -> seq<Element>, m: nat, n: nat)
    requires |urls| <= m <= n
    ensures forall j :: 0 <= j < |LinksBetween(urls, contents, parse, m, n)| ==> LinksBetween(urls, contents, parse, m, n)[j].0.None?
    decreases n - m
  {
    if n > m {
      LinksPastSeeds(urls, contents, parse, m, n - 1);
      var before := LinksBetween(urls, contents, parse, m, n - 1);
      var added := PageLinks(None, ContentAt(contents, n - 1), parse);
      PageLinksSeed(None, ContentAt(contents, n - 1), parse);
      var after := before + added;
      assert LinksBetween(urls, contents, parse, m, n) == after;
      forall j | 0 <= j < |after| ensures after[j].0.None? {
        if j >= |before| {
          assert after[j] == added[j - |before|];
        } else {
          assert after[j] == before[j];
        }
      }
    }
  }

  /** The seed `izip_longest` attaches is positional: the links are those
      of the positions that have a seed, all carrying one, followed by
      those of the contents past the last seed, carrying none. */
  lemma LinksSeededFirst(urls: seq<Url>, contents: seq<Content>, parse: Content -> seq<Element>)
    ensures Links(urls, contents, parse)
         == LinksUpTo(urls, contents, parse, |urls|) + LinksBetween(urls, contents, parse, |urls|, Width(urls, contents))
    ensures forall j :: 0 <= j < |LinksUpTo(urls, contents, parse, |urls|)| ==> LinksUpTo(urls, contents, parse, |urls|)[j].0.Some?
    ensures var rest := LinksBetween(urls, contents, parse, |urls|, Width(urls, contents));
            forall j :: 0 <= j < |rest| ==> rest[j].0.None?
  {
    LinksSplit(urls, contents, parse, |urls|, Width(urls, contents));
    LinksWithinSeeds(urls, contents, parse, |urls|);
    LinksPastSeeds(urls, contents, parse, |urls|, Width(urls, contents));
  }

  /** The page of tests.py: three elements with an href ("vk.com", "/" and
      the href of an <img>), one <a> without href, one more link: four
      links, with no seed attached since no seeds are passed. */
  lemma FourLinksScenario(parse: Content -> seq<Element>, first: Content, second: Content, third: Content)
    requires first != "" && second != "" && third != ""
    requires parse(first) == [Element("a", Some("vk.com")), Element("a", Some("/")), Element("img", Some("facebook.com"))]
    requires parse(second) == [Element("a", None)]
    requires parse(third) == [Element("a", Some("youtube.com"))]
    ensures Links([], [first, second, third], parse)
         == [(None, "vk.com"), (None, "/"), (None, "facebook.com"), (None, "youtube.com")]
  {
    var contents := [first, second, third];
    TestPageHrefs();
    assert LinksUpTo([], contents, parse, 1) == [(None, "vk.com"), (None, "/"), (None, "facebook.com")];
    assert LinksUpTo([], contents, parse, 2) == LinksUpTo([], contents, parse, 1);
    assert LinksUpTo([], contents, parse, 3) == LinksUpTo([], contents, parse, 2) + [(None, "youtube.com")];
  }

  lemma TestPageHrefs()
    ensures Tagged(None, Hrefs([Element("a", Some("vk.com")), Element("a", Some("/")), Element("img", Some("facebook.com"))]))
         == [(None, "vk.com"), (None, "/"), (None, "facebook.com")]
    ensures Hrefs([Element("a", None)]) == []
    ensures Tagged(None, Hrefs([Element("a", Some("youtube.com"))])) == [(None, "youtube.com")]
  {
    var p1 := [Element("a", Some("vk.com")), Element("a", Some("/")), Element("img", Some("facebook.com"))];
    assert p1[..2][..1] == p1[..1] && p1[..1][..0] == [] && p1[..3][..2] == p1[..2];
    assert Hrefs(p1[..1]) == ["vk.com"];
    assert Hrefs(p1[..2]) == ["vk.com", "/"];
    assert p1[..3] == p1;
    assert Hrefs(p1) == ["vk.com", "/", "facebook.com"];
    TaggedPairs(None, Hrefs(p1));
    var p3 := [Element("a", Some("youtube.com"))];
    assert p3[..0] == [];
    assert Hrefs(p3) == ["youtube.com"];
    TaggedPairs(None, Hrefs(p3));
    assert [Element("a", None)][..0] == [];
  }

  /** When the first seed cannot be fetched, the links of the second seed's
      page are attributed to the first seed: contents are paired with seeds
      by position after failed requests have been dropped. */
  lemma LinksMisattributedAfterFailure(fetch: (Url, nat) -> Option<Content>, parse: Content -> seq<Element>, page: Content)
    requires page != ""
    requires forall k :: fetch("a", k).None?
    requires fetch("b", 0) == Some(page)
    requires parse(page) == [Element("a", Some("x.com"))]
    ensures Fetched(fetch, ["a", "b"]) == [page]
    ensures Links(["a", "b"], Fetched(fetch, ["a", "b"]), parse) == [(Some("a"), "x.com")]
  {
    var urls: seq<Url> := ["a", "b"];
    RetryExhaustion(Attempts(fetch, "a"), Retries);
    RetrySucceedsAtFirstReturn(Attempts(fetch, "b"), Retries, 1);
    assert urls[..1] == ["a"] && urls[..1][..0] == [];
    assert Fetched(fetch, urls[..1]) == [];
    assert Fetched(fetch, urls) == [page];
    assert parse(page)[..0] == [];
    assert Hrefs(parse(page)) == ["x.com"];
    assert Tagged(Some("a"), ["x.com"]) == [(Some("a"), "x.com")] by {
      assert ["x.com"][..0] == [];
    }
    assert LinksUpTo(urls, [page], parse, 1) == [(Some("a"), "x.com")];
    assert LinksUpTo(urls, [page], parse, 2) == LinksUpTo(urls, [page], parse, 1);
  }

  // ---------------------------------------------------------------------
  // the whole stage

  /** `get_url_host_ip` with the resolver fixed. */
  function HostInfoOf(resolve: string -> Lookup): Url -> HostingInfo {
    (url: Url) => GetUrlHostIp(resolve, url)
  }

  /** Each link paired with the HostingInfo `info` gives for its href. */
  function Resolved(info: Url -> HostingInfo, links: seq<Link>): seq<(Option<Url>, HostingInfo)> {
    if links == [] then []
    else
      var link := links[|links| - 1];
      Resolved(info, links[..|links| - 1]) + [(link.0, info(link.1))]
  }

  /** Nothing is filtered: the i-th entry is the i-th link with the
      HostingInfo of its href, whatever its domain or address. */
  lemma {:induction false} ResolvedKeepsEveryLink(info: Url -> HostingInfo, links: seq<Link>)
    ensures |Resolved(info, links)| == |links|
    ensures forall j :: 0 <= j < |links| ==> Resolved(info, links)[j] == (links[j].0, info(links[j].1))
  {
    if links != [] {
      ResolvedKeepsEveryLink(info, links[..|links| - 1]);
    }
  }

  /** The loop of `data_from_urls` over the extracted links, with
      `get_url_host_ip` passed in as `info`. The `if result` test is always
      true for a three-field namedtuple, so links with an empty domain or
      the sentinel address are kept. */
  method ResolveLinks(info: Url -> HostingInfo, links: seq<Link>) returns (data: seq<(Option<Url>, HostingInfo)>)
    ensures data == Resolved(info, links)
  {
    data := [];
    var i := 0;
    while i < |links|
      invariant 0 <= i <= |links|
      invariant data == Resolved(info, links[..i])
    {
      assert links[..i + 1][..i] == links[..i];
      var result := info(links[i].1);
      data := data + [(links[i].0, result)];
      i := i + 1;
    }
    assert links[..|links|] == links;
  }

  /** `data_from_urls`: one (seed, HostingInfo) per link extracted from the
      pages of the seeds that could be fetched. */
  method DataFromUrls(urls: seq<Url>, fetch: (Url, nat) -> Option<Content>, parse: Content -> seq<Element>, resolve: string -> Lookup)
    returns (data: seq<(Option<Url>, HostingInfo)>)
    ensures data == Resolved(HostInfoOf(resolve), Links(urls, Fetched(fetch, urls), parse))
  {
    var contents := RequestPages(fetch, urls);
    var links := ListOfLinksFromContents(urls, contents, parse);
    data := ResolveLinks(HostInfoOf(resolve), links);
  }

  /** The malformed URL of tests.py ("http:/ww.vk.com", a single slash)
      has no network location, so its domain is empty and, since the
      resolver fails for it, its address is the sentinel "0.0.0.0" (the
      test expects the empty string). */
  lemma MalformedUrlScenario(resolve: string -> Lookup)
    requires !resolve("").Address?
    ensures GetUrlHostIp(resolve, "http:/ww.vk.com") == HostingInfo("http:/ww.vk.com", UnknownIp, "")
  {
    var url := "http:/ww.vk.com";
    assert UrlParse.Find(url, ':', 0) == 4 by {
      assert url[0] != ':' && url[1] != ':' && url[2] != ':' && url[3] != ':' && url[4] == ':';
    }
    assert url[..4] == "http";
    assert UrlParse.AfterScheme(url) == url[5..];
    assert url[5..][..2] != "//" by { assert url[5..][1] == 'w'; }
  }

  /** The domain of an http URL with a plain host is that host, less a
      leading "www." (tests.py: "http://vk.com" gives "vk.com"). */
  lemma DomainOfHttpUrl(host: string)
    requires UrlParse.PlainHost(host)
    ensures DomainFromUrl("http://" + host) == if StartsWith(host, Www) then host[4..] else host
  {
    UrlParse.NetlocOfHttp(host);
  }

  /** Putting "www." before a plain host keeps it plain. */
  lemma WwwHost(host: string)
    requires UrlParse.PlainHost(host)
    ensures UrlParse.PlainHost(Www + host)
    ensures "http://www." + host == "http://" + (Www + host)
    ensures (Www + host)[..4] == Www && (Www + host)[4..] == host
  {
    var full := Www + host;
    forall j | 0 <= j < |full| ensures full[j] != '/' && full[j] != '?' && full[j] != '#' && full[j] != ':' {
      if j >= 4 {
        assert full[j] == host[j - 4];
      }
    }
  }

  /** "www." and nothing more is stripped (tests.py: "http://www.vk.com"
      gives "vk.com"). */
  lemma DomainOfWwwUrl(host: string)
    requires UrlParse.PlainHost(host)
    ensures DomainFromUrl("http://www." + host) == host
  {
    WwwHost(host);
    DomainOfHttpUrl(Www + host);
  }

  /** `get_url_host_ip` for an http URL with a plain host not starting
      with "www." (tests.py: "http://vk.com" gives domain "vk.com" and the
      resolver's address for it). */
  lemma HostInfoOfHttpUrl(resolve: string -> Lookup, host: string)
    requires UrlParse.PlainHost(host) && !StartsWith(host, Www)
    ensures GetUrlHostIp(resolve, "http://" + host)
         == HostingInfo("http://" + host, if resolve(host).Address? then resolve(host).ip else UnknownIp, host)
  {
    DomainOfHttpUrl(host);
  }
}
