/** The older pipeline (`parser.py`): a `Page` wrapping a parsed document,
    the hrefs of its anchors, and the (url, domain, ip) triples drawn from
    them. The HTML parser, the resolver and `grequests` are parameters, as
    in `Parsing`. */
module LegacyParser {
  import opened Common
  import UrlParse
  import Parsing

  /** What a generator produces when it is run to its end: the values it
      yielded, and whether it then raised instead of finishing. */
  datatype Stream<T> = Stream(items: seq<T>, raised: bool)

  datatype Triple = Triple(url: Url, domain: string, ip: string)

  /** `Page(soap)`: the elements of the parsed document, in order. */
  datatype Page = Page(soup: seq<Element>)

  // ---------------------------------------------------------------------
  // domain and address

  /** `Page._get_domain_from_url` as written: when the network location
      starts with "www.", its first five characters are dropped, one more
      than "www." has (see `DomainStripsFiveCounterexample`). The result is
      a suffix of the network location, and the whole of it exactly when
      it does not start with "www.". */
  function DomainFromUrlAsWritten(url: Url): (d: string)
    ensures |d| <= |UrlParse.Netloc(url)|
    ensures d == UrlParse.Netloc(url)[|UrlParse.Netloc(url)| - |d|..]
    ensures d == UrlParse.Netloc(url) <==> !StartsWith(UrlParse.Netloc(url), Parsing.Www)
  {
    var domain := UrlParse.Netloc(url);
    if StartsWith(domain, Parsing.Www) then (if |domain| >= 5 then domain[5..] else "") else domain
  }

  /** Stripping "www." this way also loses the first character of the
      host proper; other network locations are kept whole. */
  lemma DomainLosesHostCharacter(url: Url)
    ensures var n := UrlParse.Netloc(url);
            StartsWith(n, Parsing.Www) && |n| >= 5 ==> n == Parsing.Www + [n[4]] + DomainFromUrlAsWritten(url)
    ensures var n := UrlParse.Netloc(url);
            StartsWith(n, Parsing.Www) ==> |DomainFromUrlAsWritten(url)| + 5 == |n| || (|n| == 4 && DomainFromUrlAsWritten(url) == "")
    ensures !StartsWith(UrlParse.Netloc(url), Parsing.Www) ==> DomainFromUrlAsWritten(url) == UrlParse.Netloc(url)
  {
    var n := UrlParse.Netloc(url);
    if StartsWith(n, Parsing.Www) && |n| >= 5 {
      assert n == n[..4] + [n[4]] + n[5..];
    }
  }

  /** For every host behind "www." the domain loses the host's first
      character ("http://www.vk.com" gives "k.com"), where `domain_from_url`
      of `parsing.py` keeps the host whole. */
  lemma DomainStripsFiveCounterexample(host: string)
    requires UrlParse.PlainHost(host) && host != []
    ensures DomainFromUrlAsWritten("http://www." + host) == host[1..]
    ensures Parsing.DomainFromUrl("http://www." + host) == host
  {
    Parsing.DomainOfWwwUrl(host);
    Parsing.WwwHost(host);
    var full := Parsing.Www + host;
    UrlParse.NetlocOfHttp(full);
    assert full[5..] == host[1..];
  }

  /** `Page._get_ip_from_url`: the resolver's address, `None` when it raises
      `socket.gaierror`; any other socket error escapes. */
  function GetIpFromUrl(resolve: string -> Lookup, url: Url): (ip: Attempt<Option<string>>)
    ensures ip.Raised? <==> resolve(url).SocketError?
    ensures ip == Returned(None) <==> resolve(url).GaiError?
    ensures resolve(url).Address? ==> ip == Returned(Some(resolve(url).ip))
  {
    match resolve(url)
    case Address(a) => Returned(Some(a))
    case GaiError => Returned(None)
    case SocketError => Raised
  }

  // ---------------------------------------------------------------------
  // anchors

  /** The `<a>` elements of a document (`find_all('a')`), in order. */
  function Anchors(elements: seq<Element>): (r: seq<Element>)
    ensures |r| <= |elements|
    ensures forall j :: 0 <= j < |r| ==> r[j].tag == "a"
  {
    if elements == [] then []
    else
      var e := elements[|elements| - 1];
      Anchors(elements[..|elements| - 1]) + if e.tag == "a" then [e] else []
  }

  /** The `<a>` elements are kept in their document order. */
  lemma {:induction false} AnchorsInOrder(elements: seq<Element>)
    ensures IsSubsequence(Anchors(elements), elements)
  {
    if elements != [] {
      var init, e := elements[..|elements| - 1], elements[|elements| - 1];
      assert init + [e] == elements;
      AnchorsInOrder(init);
      var before := Anchors(init);
      if e.tag == "a" {
        assert Anchors(elements) == before + [e];
        assert (before + [e])[..|before|] == before;
      } else {
        assert Anchors(elements) == before;
        SubsequenceExtend(before, init, e);
      }
    }
  }

  /** Exactly the `<a>` elements are kept. */
  lemma {:induction false} AnchorsAreTheAElements(elements: seq<Element>)
    ensures forall e :: e in Anchors(elements) <==> e in elements && e.tag == "a"
  {
    if elements != [] {
      var init, e := elements[..|elements| - 1], elements[|elements| - 1];
      assert init + [e] == elements;
      AnchorsAreTheAElements(init);
    }
  }

  /** Each `<a>` element is kept as many times as it occurs in the
      document, and no other element is kept. */
  lemma {:induction false} AnchorsKeepEveryA(elements: seq<Element>)
    ensures forall x :: multiset(Anchors(elements))[x] == if x.tag == "a" then multiset(elements)[x] else 0
  {
    if elements != [] {
      var init, e := elements[..|elements| - 1], elements[|elements| - 1];
      assert elements == init + [e];
      AnchorsKeepEveryA(init);
    }
  }

  /** The href of each anchor, `None` where it has none. */
  function HrefsOf(anchors: seq<Element>): seq<Option<string>> {
    seq(|anchors|, j requires 0 <= j < |anchors| => anchors[j].href)
  }

  /** `Page.fetch_urls`: one value per `<a>` element, in document order:
      its href, or `None` when it has none. */
  method FetchUrls(page: Page) returns (urls: seq<Option<string>>)
    ensures |urls| == |Anchors(page.soup)|
    ensures forall j :: 0 <= j < |urls| ==> urls[j] == Anchors(page.soup)[j].href
    ensures urls == HrefsOf(Anchors(page.soup))
  {
    urls := [];
    var i := 0;
    while i < |page.soup|
      invariant 0 <= i <= |page.soup|
      invariant |urls| == |Anchors(page.soup[..i])|
      invariant forall j :: 0 <= j < |urls| ==> urls[j] == Anchors(page.soup[..i])[j].href
    {
      assert page.soup[..i + 1][..i] == page.soup[..i];
      var a := page.soup[i];
      if a.tag == "a" {
        urls := urls + [a.href];
      }
      i := i + 1;
    }
    assert page.soup[..|page.soup|] == page.soup;
  }

  // ---------------------------------------------------------------------
  // triples

  /** One step of `get_urls_hosts_ips`: `urlparse(None)` raises for an
      anchor without href; otherwise the triple is yielded when both its
      domain and its address are non-empty. The address is looked up for
      the whole href and the domain is `_get_domain_from_url`'s, both as
      written. It runs only while the generator has not raised. The step
      raises exactly on a fatal href, yields the triple of a complete href,
      and yields nothing otherwise. */
  function Step(s: Stream<Triple>, url: Option<Url>, resolve: string -> Lookup): (r: Stream<Triple>)
    requires !s.raised
    ensures r.raised <==> Fatal(url, resolve)
    ensures Complete(url, resolve) ==> r.items == s.items + [TripleOf(url.value, resolve)]
    ensures !Complete(url, resolve) ==> r.items == s.items
  {
    if url.None? then Stream(s.items, true)
    else
      var domain := DomainFromUrlAsWritten(url.value);
      var ip := GetIpFromUrl(resolve, url.value);
      if ip.Raised? then Stream(s.items, true)
      else if domain != "" && ip.value.Some? && ip.value.value != "" then
        Stream(s.items + [Triple(url.value, domain, ip.value.value)], false)
      else s
  }

  /** An href whose triple is yielded: it resolves to a non-empty address
      and its as-written domain is non-empty (`if domain and ip`). */
  predicate Complete(url: Option<Url>, resolve: string -> Lookup) {
    && url.Some? && resolve(url.value).Address?
    && resolve(url.value).ip != "" && DomainFromUrlAsWritten(url.value) != ""
  }

  /** The triple yielded for a resolving href. */
  function TripleOf(url: Url, resolve: string -> Lookup): Triple
    requires resolve(url).Address?
  {
    Triple(url, DomainFromUrlAsWritten(url), resolve(url).ip)
  }

  /** What `get_urls_hosts_ips` produces for the hrefs `urls`: at most
      one triple per href. */
  function Triples(urls: seq<Option<Url>>, resolve: string -> Lookup): (r: Stream<Triple>)
    ensures |r.items| <= |urls|
  {
    if urls == [] then Stream([], false)
    else
      var s := Triples(urls[..|urls| - 1], resolve);
      if s.raised then s else Step(s, urls[|urls| - 1], resolve)
  }

  /** `Page.get_urls_hosts_ips`: the triples of the page's anchors, in
      order, until an exception ends the generator. */
  method GetUrlsHostsIps(page: Page, resolve: string -> Lookup) returns (out: Stream<Triple>)
    ensures out == Triples(HrefsOf(Anchors(page.soup)), resolve)
  {
    var urls := FetchUrls(page);
    out := Stream([], false);
    var i := 0;
    while i < |urls|
      invariant 0 <= i <= |urls|
      invariant out == Triples(urls[..i], resolve) && !out.raised
    {
      TriplesStep(urls, i, resolve);
      out := Step(out, urls[i], resolve);
      if out.raised {
        ResultAfterRaise(urls, i + 1, resolve);
        return;
      }
      i := i + 1;
    }
    assert urls[..|urls|] == urls;
  }

  lemma TriplesStep(urls: seq<Option<Url>>, i: nat, resolve: string -> Lookup)
    requires i < |urls| && !Triples(urls[..i], resolve).raised
    ensures Triples(urls[..i + 1], resolve) == Step(Triples(urls[..i], resolve), urls[i], resolve)
  {
    assert urls[..i + 1][..i] == urls[..i];
  }

  /** Once the generator has raised, later anchors change nothing. */
  lemma {:induction false} ResultAfterRaise(urls: seq<Option<Url>>, n: nat, resolve: string -> Lookup)
    requires n <= |urls|
    requires Triples(urls[..n], resolve).raised
    ensures Triples(urls, resolve) == Triples(urls[..n], resolve)
    decreases |urls| - n
  {
    if n < |urls| {
      assert urls[..n + 1][..n] == urls[..n];
      ResultAfterRaise(urls, n + 1, resolve);
    } else {
      assert urls[..n] == urls;
    }
  }

  /** Every triple yielded is complete: its url is an href of the page, its
      domain is that url's domain and non-empty, and its address is the
      resolver's non-empty answer for the whole url, so a url whose lookup
      fails never appears. */
  lemma {:induction false} TriplesAreComplete(urls: seq<Option<Url>>, resolve: string -> Lookup)
    ensures forall t :: t in Triples(urls, resolve).items ==>
              && Some(t.url) in urls
              && t.domain == DomainFromUrlAsWritten(t.url) && t.domain != ""
              && resolve(t.url) == Address(t.ip) && t.ip != ""
  {
    if urls != [] {
      var init, url := urls[..|urls| - 1], urls[|urls| - 1];
      assert urls == init + [url];
      TriplesAreComplete(init, resolve);
      var s := Triples(init, resolve);
      var after := Triples(urls, resolve).items;
      forall t | t in after
        ensures Some(t.url) in urls
        ensures t.domain == DomainFromUrlAsWritten(t.url) && t.domain != ""
        ensures resolve(t.url) == Address(t.ip) && t.ip != ""
      {
        if t !in s.items {
          assert t == Triple(url.value, DomainFromUrlAsWritten(url.value), resolve(url.value).ip);
        }
      }
    }
  }

  function Urls(triples: seq<Triple>): (r: seq<Option<Url>>)
    ensures |r| == |triples|
  {
    if triples == [] then [] else Urls(triples[..|triples| - 1]) + [Some(triples[|triples| - 1].url)]
  }

  /** The triples keep the order of the hrefs they come from. */
  lemma {:induction false} TriplesInOrder(urls: seq<Option<Url>>, resolve: string -> Lookup)
    ensures IsSubsequence(Urls(Triples(urls, resolve).items), urls)
  {
    if urls != [] {
      var init, url := urls[..|urls| - 1], urls[|urls| - 1];
      assert init + [url] == urls;
      TriplesInOrder(init, resolve);
      var s := Triples(init, resolve);
      var before := s.items;
      var after := Triples(urls, resolve).items;
      if after == before {
        SubsequenceExtend(Urls(before), init, url);
      } else {
        assert after == before + [Triple(url.value, DomainFromUrlAsWritten(url.value), resolve(url.value).ip)];
        assert after[..|after| - 1] == before;
        assert Urls(after) == Urls(before) + [url];
        assert Urls(after)[..|before|] == Urls(before);
      }
    }
  }

  /** Every complete href before the first fatal one has its triple
      yielded. */
  lemma {:induction false} TriplesYieldEveryCompleteHref(urls: seq<Option<Url>>, resolve: string -> Lookup, j: nat)
    requires j < |urls|
    requires forall i :: 0 <= i < j ==> !Fatal(urls[i], resolve)
    requires Complete(urls[j], resolve)
    ensures TripleOf(urls[j].value, resolve) in Triples(urls, resolve).items
  {
    var init, url := urls[..|urls| - 1], urls[|urls| - 1];
    assert init + [url] == urls;
    var s := Triples(init, resolve);
    if j == |urls| - 1 {
      forall i | 0 <= i < |init| ensures !Fatal(init[i], resolve) {
        assert init[i] == urls[i];
      }
      TriplesRaise(init, resolve);
    } else {
      assert urls[j] == init[j];
      TriplesYieldEveryCompleteHref(init, resolve, j);
    }
  }

  /** An href that makes the generator raise: a missing one, or one whose
      lookup raises a socket error other than `gaierror`. */
  predicate Fatal(url: Option<Url>, resolve: string -> Lookup) {
    url.None? || resolve(url.value).SocketError?
  }

  /** Adding an href makes the generator raise exactly when it had raised
      already or the new href is fatal. */
  lemma TriplesRaiseSnoc(urls: seq<Option<Url>>, url: Option<Url>, resolve: string -> Lookup)
    ensures Triples(urls + [url], resolve).raised <==> Triples(urls, resolve).raised || Fatal(url, resolve)
  {
    assert (urls + [url])[..|urls|] == urls;
  }

  /** The generator raises exactly when some anchor's href is fatal. */
  lemma {:induction false} TriplesRaise(urls: seq<Option<Url>>, resolve: string -> Lookup)
    ensures Triples(urls, resolve).raised <==> exists j :: 0 <= j < |urls| && Fatal(urls[j], resolve)
  {
    if urls != [] {
      var init, url := urls[..|urls| - 1], urls[|urls| - 1];
      assert init + [url] == urls;
      TriplesRaise(init, resolve);
      TriplesRaiseSnoc(init, url, resolve);
      if exists j :: 0 <= j < |init| && Fatal(init[j], resolve) {
        var j :| 0 <= j < |init| && Fatal(init[j], resolve);
        assert urls[j] == init[j];
      } else if Fatal(url, resolve) {
        assert urls[|urls| - 1] == url;
      } else {
        forall j | 0 <= j < |urls| ensures !Fatal(urls[j], resolve) {
          if j < |init| {
            assert urls[j] == init[j];
          }
        }
      }
    }
  }

  // ---------------------------------------------------------------------
  // requesting pages

  /** `request_pages` of `parser.py`: the bodies of the responses
      `grequests.imap` delivers, skipping the failed requests (`None`). */
  function RequestPages(responses: seq<Option<Content>>): (contents: seq<Content>)
    ensures |contents| <= |responses|
    ensures forall c :: c in contents <==> Some(c) in responses
  {
    if responses == [] then []
    else
      var r := responses[|responses| - 1];
      RequestPages(responses[..|responses| - 1]) + if r.Some? then [r.value] else []
  }

  /** Each body is yielded as many times as a response carrying it
      arrives: none is dropped or repeated. */
  lemma {:induction false} RequestPagesKeepsEveryBody(responses: seq<Option<Content>>)
    ensures forall c :: multiset(RequestPages(responses))[c] == multiset(responses)[Some(c)]
  {
    if responses != [] {
      var init, r := responses[..|responses| - 1], responses[|responses| - 1];
      assert responses == init + [r];
      RequestPagesKeepsEveryBody(init);
    }
  }

  function Wrapped(contents: seq<Content>): (r: seq<Option<Content>>)
    ensures |r| == |contents|
  {
    if contents == [] then [] else Wrapped(contents[..|contents| - 1]) + [Some(contents[|contents| - 1])]
  }

  /** The bodies keep the order in which the responses arrive. */
  lemma {:induction false} RequestPagesInOrder(responses: seq<Option<Content>>)
    ensures IsSubsequence(Wrapped(RequestPages(responses)), responses)
  {
    if responses != [] {
      var init, r := responses[..|responses| - 1], responses[|responses| - 1];
      assert init + [r] == responses;
      RequestPagesInOrder(init);
      var before := RequestPages(init);
      if r.Some? {
        var after := before + [r.value];
        assert RequestPages(responses) == after;
        assert after[..|after| - 1] == before;
        assert Wrapped(after) == Wrapped(before) + [r];
        assert Wrapped(after)[..|before|] == Wrapped(before);
      } else {
        assert RequestPages(responses) == before;
        SubsequenceExtend(Wrapped(before), init, r);
      }
    }
  }
}
