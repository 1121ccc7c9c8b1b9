/** A simplified stand-in for Python 2's `urlparse`: only as much of
    `urlsplit` as is needed to obtain the network location of a URL. */
module UrlParse {

  /** Characters Python 2 accepts in a URL scheme (`scheme_chars`). */
  predicate IsSchemeChar(c: char) {
    ('a' <= c <= 'z') || ('A' <= c <= 'Z') || ('0' <= c <= '9') || c == '+' || c == '-' || c == '.'
  }

  predicate IsDigits(s: string) {
    forall j :: 0 <= j < |s| ==> '0' <= s[j] <= '9'
  }

  /** Position of the first `c` in `s` at or after `from`, or `|s|` when
      there is none. */
  function Find(s: string, c: char, from: nat): (i: nat)
    requires from <= |s|
    ensures from <= i <= |s|
    decreases |s| - from
  {
    if from == |s| || s[from] == c then from else Find(s, c, from + 1)
  }

  /** `Find` stops at the first `c`, or at the end when there is none. */
  lemma {:induction false} FindFirst(s: string, c: char, from: nat)
    requires from <= |s|
    ensures Find(s, c, from) < |s| ==> s[Find(s, c, from)] == c
    ensures forall j :: from <= j < Find(s, c, from) ==> s[j] != c
    decreases |s| - from
  {
    if from < |s| && s[from] != c {
      FindFirst(s, c, from + 1);
    }
  }

  /** `Find` returns the first `c` at or after `from`. */
  lemma {:induction false} FoundAt(s: string, c: char, from: nat, i: nat)
    requires from <= i < |s| && s[i] == c
    requires forall j :: from <= j < i ==> s[j] != c
    ensures Find(s, c, from) == i
    decreases i - from
  {
    if from < i {
      FoundAt(s, c, from + 1, i);
    }
  }

  /** `Find` returns the end when there is no `c` at or after `from`. */
  lemma {:induction false} NotFound(s: string, c: char, from: nat)
    requires from <= |s|
    requires forall j :: from <= j < |s| ==> s[j] != c
    ensures Find(s, c, from) == |s|
    decreases |s| - from
  {
    if from < |s| {
      NotFound(s, c, from + 1);
    }
  }

  /** The URL with its scheme and colon removed, when it has a scheme: a
      non-empty run of scheme characters before the first colon that is
      either "http" or is not followed by a port-like run of digits. */
  function AfterScheme(url: string): string {
    var i := Find(url, ':', 0);
    if 0 < i < |url|
       && (forall j :: 0 <= j < i ==> IsSchemeChar(url[j]))
       && (url[..i] == "http" || url[i + 1..] == [] || !IsDigits(url[i + 1..]))
    then url[i + 1..]
    else url
  }

  /** The network location: after "//", up to the first '/', '?' or '#'. */
  function Netloc(url: string): string {
    var rest := AfterScheme(url);
    if |rest| >= 2 && rest[..2] == "//" then
      var slash, query, hash := Find(rest, '/', 2), Find(rest, '?', 2), Find(rest, '#', 2);
      var stop := if slash <= query && slash <= hash then slash
                  else if query <= hash then query
                  else hash;
      rest[2..stop]
    else ""
  }

  /** The network location is part of the URL and holds no '/', '?' or
      '#'. */
  lemma NetlocHasNoDelimiters(url: string)
    ensures |Netloc(url)| <= |url|
    ensures forall j :: 0 <= j < |Netloc(url)| ==> Netloc(url)[j] != '/' && Netloc(url)[j] != '?' && Netloc(url)[j] != '#'
  {
    var rest := AfterScheme(url);
    assert |rest| <= |url|;
    if |rest| >= 2 && rest[..2] == "//" {
      var slash, query, hash := Find(rest, '/', 2), Find(rest, '?', 2), Find(rest, '#', 2);
      FindFirst(rest, '/', 2);
      FindFirst(rest, '?', 2);
      FindFirst(rest, '#', 2);
      var stop := if slash <= query && slash <= hash then slash
                  else if query <= hash then query
                  else hash;
      var n := rest[2..stop];
      assert Netloc(url) == n;
      forall j | 0 <= j < |n| ensures n[j] != '/' && n[j] != '?' && n[j] != '#' {
        assert n[j] == rest[j + 2];
        assert j + 2 < slash && j + 2 < query && j + 2 < hash;
      }
    }
  }

  /** A host name with no '/', '?', '#' or ':' in it. */
  predicate PlainHost(host: string) {
    forall j :: 0 <= j < |host| ==> host[j] != '/' && host[j] != '?' && host[j] != '#' && host[j] != ':'
  }

  /** An http URL loses its scheme "http:" and keeps the rest. */
  lemma AfterSchemeOfHttp(host: string)
    ensures AfterScheme("http://" + host) == "//" + host
  {
    var url := "http://" + host;
    assert url[..4] == "http" && url[4] == ':';
    FoundAt(url, ':', 0, 4);
    assert url[5..] == "//" + host;
  }

  /** An http URL whose host holds no '/', '?', '#' or ':' has that host as
      its network location. */
  lemma NetlocOfHttp(host: string)
    requires PlainHost(host)
    ensures Netloc("http://" + host) == host
  {
    AfterSchemeOfHttp(host);
    var rest := "//" + host;
    NotFound(rest, '/', 2);
    NotFound(rest, '?', 2);
    NotFound(rest, '#', 2);
    assert rest[..2] == "//";
    assert rest[2..] == host;
  }
}
