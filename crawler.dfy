/** The crawl worklist of find_emails: a frontier of URLs still to fetch, the
    set of URLs fetched successfully, and the set of email addresses found.
    The network, the HTML parser and the URL library are parameters (a Web);
    the loop itself is the method FindEmails, and one turn of it is the pure
    function Step, against which the method is proved. */
module Crawler {
  import opened Mailto

  type Url = string
  type Href = string
  type Email = string
  type HostName = string

  datatype Option<T> = None | Some(value: T)

  /** What one GET of a page yields: a transport error (RequestException),
      or the href values of the page's anchors that carry one, in document order. */
  datatype Fetch = Fail | Ok(hrefs: seq<Href>)

  /** The outside world the crawler talks to.
      resolve: urljoin; host: the hostname urlparse finds, None when it finds
      none (a resolved mailto link has none); fetch: the outcome of the n-th
      request of the crawl (counting from 0) for a URL, so a page may fail once
      and load on a later attempt. */
  datatype Web = Web(
    resolve: (Url, Href) -> Url,
    host: Url -> Option<HostName>,
    fetch: (nat, Url) -> Fetch)

  /** The three sets the loop mutates. */
  datatype Crawl = Crawl(toVisit: set<Url>, visited: set<Url>, emails: set<Email>)

  /** The frontier size above which the crawl gives up. */
  const Cap: nat := 500

  function Init(base: Url): Crawl {
    Crawl({base}, {}, {})
  }

  /** The loop no longer runs: the frontier is empty, or has passed the cap. */
  predicate Halted(s: Crawl) {
    s.toVisit == {} || |s.toVisit| > Cap
  }

  /** Hostnames are compared as they are, including None == None. */
  predicate SameHost(web: Web, base: Url, url: Url): (same: bool)
    ensures url == base ==> same
    ensures web.host(base).None? ==> (same <==> web.host(url).None?)
  {
    web.host(url) == web.host(base)
  }

  /** The addresses one page contributes: every href the mailto selector
      picks up, with "mailto:" deleted. */
  function MailtoEmails(hrefs: seq<Href>): set<Email> {
    set h | h in hrefs && IsMailtoHref(h) :: StripMailto(h)
  }

  /** The links of one page that stay on the seed's host; every href is
      resolved against the seed URL, never against the page it sits on. */
  function SameHostLinks(web: Web, base: Url, hrefs: seq<Href>): set<Url> {
    set h | h in hrefs && SameHost(web, base, web.resolve(base, h)) :: web.resolve(base, h)
  }

  /** One turn of the loop on a popped page, after the fetch has answered.
      A failed fetch only drops the page from the frontier; a successful one
      marks it visited, adds the page's addresses, and queues its same-host
      links that are not visited. */
  function Step(web: Web, base: Url, s: Crawl, page: Url, outcome: Fetch): (r: Crawl)
    requires page in s.toVisit
    ensures s.visited <= r.visited && s.emails <= r.emails
    ensures page !in r.toVisit
    ensures outcome.Fail? ==>
      r.visited == s.visited && r.emails == s.emails && r.toVisit == s.toVisit - {page}
    ensures outcome.Ok? ==>
      r.visited == s.visited + {page} &&
      r.emails == s.emails + MailtoEmails(outcome.hrefs) &&
      s.toVisit - {page} <= r.toVisit &&
      SameHostLinks(web, base, outcome.hrefs) - r.visited <= r.toVisit &&
      r.toVisit - s.toVisit <= SameHostLinks(web, base, outcome.hrefs) &&
      forall u :: u in r.toVisit - s.toVisit ==>
        SameHost(web, base, u) && u !in r.visited
  {
    match outcome
    case Fail => s.(toVisit := s.toVisit - {page})
    case Ok(hrefs) =>
      var visited := s.visited + {page};
      Crawl(s.toVisit - {page} + (SameHostLinks(web, base, hrefs) - visited),
            visited,
            s.emails + MailtoEmails(hrefs))
  }

  /** Replays a crawl whose loop popped `pages` in this order (the i-th pop
      is the i-th request). None when the order is not one the loop can take:
      a page that is not in the frontier, or a pop after the loop stopped. */
  function Run(web: Web, base: Url, pages: seq<Url>): (r: Option<Crawl>)
    ensures pages == [] ==> r == Some(Init(base))
    ensures r.Some? ==> r.value.visited !! r.value.toVisit
    decreases |pages|
  {
    if pages == [] then Some(Init(base))
    else
      var n := |pages| - 1;
      var prev := Run(web, base, pages[..n]);
      if prev.Some? && !Halted(prev.value) && pages[n] in prev.value.toVisit
      then Some(Step(web, base, prev.value, pages[n], web.fetch(n, pages[n])))
      else None
  }

  /** The pages among `pages` whose fetch succeeded. */
  function Fetched(web: Web, pages: seq<Url>): set<Url>
    decreases |pages|
  {
    if pages == [] then {}
    else
      var n := |pages| - 1;
      Fetched(web, pages[..n]) + (if web.fetch(n, pages[n]).Ok? then {pages[n]} else {})
  }

  /** The addresses on the pages whose fetch succeeded. */
  function Harvested(web: Web, pages: seq<Url>): set<Email>
    decreases |pages|
  {
    if pages == [] then {}
    else
      var n := |pages| - 1;
      Harvested(web, pages[..n]) +
        match web.fetch(n, pages[n])
        case Ok(hrefs) => MailtoEmails(hrefs)
        case Fail => {}
  }

  /** The same-host links on the pages whose fetch succeeded. */
  function Found(web: Web, base: Url, pages: seq<Url>): set<Url>
    decreases |pages|
  {
    if pages == [] then {}
    else
      var n := |pages| - 1;
      Found(web, base, pages[..n]) +
        match web.fetch(n, pages[n])
        case Ok(hrefs) => SameHostLinks(web, base, hrefs)
        case Fail => {}
  }

  /** Request `i` succeeded and its page links to `u` on the seed's host. */
  predicate LinkedFrom(web: Web, base: Url, pages: seq<Url>, i: int, u: Url) {
    0 <= i < |pages| && web.fetch(i, pages[i]).Ok? &&
    u in SameHostLinks(web, base, web.fetch(i, pages[i]).hrefs)
  }

  /** Request `i` succeeded and its page carries the address `e`. */
  predicate HarvestedFrom(web: Web, pages: seq<Url>, i: int, e: Email) {
    0 <= i < |pages| && web.fetch(i, pages[i]).Ok? &&
    e in MailtoEmails(web.fetch(i, pages[i]).hrefs)
  }

  /** Every frontier any possible crawl from `base` reaches lies in the
      finite set `site`. As each state offers at most 500 pops, this holds
      exactly when every pop order ends (König's lemma). */
  ghost predicate CrawlBounded(web: Web, base: Url, site: set<Url>) {
    forall pages :: Run(web, base, pages).Some? ==> Run(web, base, pages).value.toVisit <= site
  }

  /** Popping one more page from a running crawl takes one Step. */
  lemma RunExtend(web: Web, base: Url, pages: seq<Url>, page: Url)
    requires Run(web, base, pages).Some? && !Halted(Run(web, base, pages).value)
    requires page in Run(web, base, pages).value.toVisit
    ensures Run(web, base, pages + [page]) ==
      Some(Step(web, base, Run(web, base, pages).value, page, web.fetch(|pages|, page)))
  {
    assert (pages + [page])[..|pages|] == pages;
  }

  /** In a bounded crawl the next state, too, queues only URLs of the site. */
  lemma RunExtendBounded(web: Web, base: Url, site: set<Url>, pages: seq<Url>, page: Url)
    requires CrawlBounded(web, base, site)
    requires Run(web, base, pages).Some? && !Halted(Run(web, base, pages).value)
    requires page in Run(web, base, pages).value.toVisit
    ensures var next := Step(web, base, Run(web, base, pages).value, page, web.fetch(|pages|, page));
      Run(web, base, pages + [page]) == Some(next) && next.toVisit <= site
  {
    RunExtend(web, base, pages, page);
  }

  /** What a crawl that took the order `pages` has built: the visited set is
      exactly the pages fetched successfully, the addresses exactly those
      on them, the frontier holds the seed or links found on them, and no
      URL is both visited and queued. */
  lemma {:induction false} RunState(web: Web, base: Url, pages: seq<Url>)
    requires Run(web, base, pages).Some?
    ensures var s := Run(web, base, pages).value;
      s.visited == Fetched(web, pages) &&
      s.emails == Harvested(web, pages) &&
      s.toVisit <= Found(web, base, pages) + {base} &&
      s.visited !! s.toVisit
    decreases |pages|
  {
    if pages != [] {
      RunState(web, base, pages[..|pages| - 1]);
    }
  }

  /** Every URL ever put on the frontier is the seed or the resolution, against
      the seed, of an href on a page fetched successfully, and shares the
      seed's host. */
  lemma {:induction false} FoundOrigin(web: Web, base: Url, pages: seq<Url>, u: Url)
    requires u in Found(web, base, pages)
    ensures SameHost(web, base, u)
    ensures exists i, h ::
      LinkedFrom(web, base, pages, i, u) && h in web.fetch(i, pages[i]).hrefs && u == web.resolve(base, h)
    decreases |pages|
  {
    var n := |pages| - 1;
    if u in Found(web, base, pages[..n]) {
      FoundOrigin(web, base, pages[..n], u);
      var i, h :| LinkedFrom(web, base, pages[..n], i, u) &&
        h in web.fetch(i, pages[..n][i]).hrefs && u == web.resolve(base, h);
      assert pages[..n][i] == pages[i];
      assert LinkedFrom(web, base, pages, i, u);
    } else {
      var hrefs := web.fetch(n, pages[n]).hrefs;
      var h :| h in hrefs && SameHost(web, base, web.resolve(base, h)) && u == web.resolve(base, h);
      assert LinkedFrom(web, base, pages, n, u);
    }
  }

  /** Every queued URL other than the seed was found on a fetched page, as
      the seed-relative resolution of one of its hrefs, on the seed's host. */
  lemma RunFrontierOrigin(web: Web, base: Url, pages: seq<Url>, u: Url)
    requires Run(web, base, pages).Some?
    requires u in Run(web, base, pages).value.toVisit && u != base
    ensures SameHost(web, base, u)
    ensures exists i, h ::
      LinkedFrom(web, base, pages, i, u) && h in web.fetch(i, pages[i]).hrefs && u == web.resolve(base, h)
  {
    RunState(web, base, pages);
    FoundOrigin(web, base, pages, u);
  }

  /** An address is in the harvest exactly when some successful request
      returned a page that carries it. */
  lemma {:induction false} HarvestedIff(web: Web, pages: seq<Url>, e: Email)
    ensures e in Harvested(web, pages) <==> exists i :: HarvestedFrom(web, pages, i, e)
    decreases |pages|
  {
    if pages != [] {
      var n := |pages| - 1;
      HarvestedIff(web, pages[..n], e);
      forall i | HarvestedFrom(web, pages[..n], i, e)
        ensures HarvestedFrom(web, pages, i, e)
      {
        assert pages[..n][i] == pages[i];
      }
      if e !in Harvested(web, pages) {
        forall i | 0 <= i < |pages| ensures !HarvestedFrom(web, pages, i, e) {
          if i < n {
            assert pages[..n][i] == pages[i];
            assert !HarvestedFrom(web, pages[..n], i, e);
          }
        }
      } else if e !in Harvested(web, pages[..n]) {
        assert HarvestedFrom(web, pages, n, e);
      }
    }
  }

  /** The addresses a crawl holds are exactly those carried by the pages its
      successful requests returned. */
  lemma RunHarvest(web: Web, base: Url, pages: seq<Url>)
    requires Run(web, base, pages).Some?
    ensures Run(web, base, pages).value.emails == Harvested(web, pages)
    ensures forall e :: e in Run(web, base, pages).value.emails <==>
      exists i :: HarvestedFrom(web, pages, i, e)
  {
    RunState(web, base, pages);
    forall e ensures e in Harvested(web, pages) <==> exists i :: HarvestedFrom(web, pages, i, e) {
      HarvestedIff(web, pages, e);
    }
  }

  /** Every prefix of a possible crawl is a possible crawl, the loop head of
      each earlier turn saw a frontier of 1 to 500 URLs, and nothing in the
      visited set or the addresses is ever lost. */
  lemma {:induction false} RunPrefix(web: Web, base: Url, pages: seq<Url>, k: nat)
    requires Run(web, base, pages).Some?
    requires k <= |pages|
    ensures Run(web, base, pages[..k]).Some?
    ensures var before, after := Run(web, base, pages[..k]).value, Run(web, base, pages).value;
      before.visited <= after.visited && before.emails <= after.emails
    ensures k < |pages| ==>
      var before := Run(web, base, pages[..k]).value;
      0 < |before.toVisit| <= Cap
    decreases |pages|
  {
    if k == |pages| {
      assert pages[..k] == pages;
    } else {
      var n := |pages| - 1;
      var prev := Run(web, base, pages[..n]);
      assert prev.Some? && !Halted(prev.value);
      var after := Step(web, base, prev.value, pages[n], web.fetch(n, pages[n]));
      assert Run(web, base, pages) == Some(after);
      assert pages[..k] == pages[..n][..k];
      if k < n {
        RunPrefix(web, base, pages[..n], k);
      }
    }
  }

  /** The seed is the first page popped; once any page has been popped, the
      seed is visited or the crawl has run dry, so a link back to the seed
      (an empty href, with urljoin) is never queued. */
  lemma SeedVisited(web: Web, base: Url, pages: seq<Url>)
    requires Run(web, base, pages).Some? && pages != []
    ensures pages[0] == base
    ensures base in Run(web, base, pages).value.visited || Run(web, base, pages).value.toVisit == {}
  {
    RunPrefix(web, base, pages, 1);
    assert pages[..1] == [] + [pages[0]];
    assert pages[0] in Init(base).toVisit;
    RunExtend(web, base, [], pages[0]);
    var first := Step(web, base, Init(base), base, web.fetch(0, base));
    assert Run(web, base, pages[..1]) == Some(first);
    assert |pages| > 1 ==> first.toVisit != {};
    assert pages == pages[..1] || |pages| > 1;
  }

  /** The loop can only stop with more than 500 queued URLs right after a
      successful fetch, and that page's addresses are already kept. */
  lemma CapOnlyAfterSuccess(web: Web, base: Url, pages: seq<Url>)
    requires Run(web, base, pages).Some?
    requires |Run(web, base, pages).value.toVisit| > Cap
    ensures |pages| > 0
    ensures var n := |pages| - 1;
      web.fetch(n, pages[n]).Ok? &&
      MailtoEmails(web.fetch(n, pages[n]).hrefs) <= Run(web, base, pages).value.emails
  {
    if pages != [] {
      var n := |pages| - 1;
      var prev := Run(web, base, pages[..n]).value;
      assert Run(web, base, pages).value == Step(web, base, prev, pages[n], web.fetch(n, pages[n]));
    }
  }

  /** Each turn makes progress over a finite universe of URLs: a success
      visits a URL not visited before, a failure shrinks the frontier and
      changes nothing else. */
  lemma StepProgress(web: Web, base: Url, s: Crawl, page: Url, outcome: Fetch, universe: set<Url>)
    requires page in s.toVisit && s.visited !! s.toVisit
    requires s.visited + s.toVisit <= universe
    ensures var r := Step(web, base, s, page, outcome);
      |universe - r.visited| < |universe - s.visited| ||
      (r.visited == s.visited && |r.toVisit| < |s.toVisit|)
  {
    var r := Step(web, base, s, page, outcome);
    if outcome.Ok? {
      assert universe - r.visited == (universe - s.visited) - {page};
    }
  }

  /** A turn keeps the visited set and the frontier disjoint and inside a
      bounded site. */
  lemma StepKeepsInvariant(web: Web, base: Url, site: set<Url>, s: Crawl, page: Url, outcome: Fetch)
    requires outcome.Ok? ==> SameHostLinks(web, base, outcome.hrefs) <= site
    requires page in s.toVisit && s.visited !! s.toVisit
    requires s.visited + s.toVisit <= site + {base}
    ensures var r := Step(web, base, s, page, outcome);
      r.visited !! r.toVisit && r.visited + r.toVisit <= site + {base}
  {
    var r := Step(web, base, s, page, outcome);
    assert r.toVisit <= s.toVisit + (if outcome.Ok? then SameHostLinks(web, base, outcome.hrefs) else {});
  }

  /** A page whose fetch failed stays unvisited, so a later page that links
      to it puts it back on the frontier. */
  lemma FailedPageRequeued(web: Web, base: Url, s: Crawl, failed: Url, next: Url, hrefs: seq<Href>, h: Href)
    requires failed in s.toVisit && next in s.toVisit && failed != next
    requires failed !in s.visited
    requires h in hrefs && web.resolve(base, h) == failed && SameHost(web, base, failed)
    ensures var mid := Step(web, base, s, failed, Fail);
      failed !in mid.toVisit && next in mid.toVisit &&
      failed in Step(web, base, mid, next, Ok(hrefs)).toVisit
  {
    var mid := Step(web, base, s, failed, Fail);
    assert failed in SameHostLinks(web, base, hrefs);
  }

  /** The first inner loop of find_emails: adds, for each anchor the mailto
      selector picks up, its href with "mailto:" deleted. */
  method AddEmails(emails: set<Email>, hrefs: seq<Href>) returns (result: set<Email>)
    ensures result == emails + MailtoEmails(hrefs)
  {
    result := emails;
    for i := 0 to |hrefs|
      invariant result == emails + MailtoEmails(hrefs[..i])
    {
      if IsMailtoHref(hrefs[i]) {
        result := result + {StripMailto(hrefs[i])};
      }
      assert hrefs[..i + 1] == hrefs[..i] + [hrefs[i]];
    }
    assert hrefs[..|hrefs|] == hrefs;
  }

  /** The second inner loop of find_emails: resolves every href against the
      seed and queues the result when it is on the seed's host and not visited. */
  method QueueLinks(web: Web, base: Url, hrefs: seq<Href>, toVisit: set<Url>, visited: set<Url>)
    returns (result: set<Url>)
    ensures result == toVisit + (SameHostLinks(web, base, hrefs) - visited)
  {
    result := toVisit;
    for i := 0 to |hrefs|
      invariant result == toVisit + (SameHostLinks(web, base, hrefs[..i]) - visited)
    {
      var url := web.resolve(base, hrefs[i]);
      if SameHost(web, base, url) && url !in visited {
        result := result + {url};
      }
      assert hrefs[..i + 1] == hrefs[..i] + [hrefs[i]];
    }
    assert hrefs[..|hrefs|] == hrefs;
  }

  /** find_emails: pops any frontier URL, fetches it, and on success marks it
      visited, keeps the page's mailto addresses and queues its unvisited
      same-host links, stopping once the frontier passes 500 URLs or runs dry.
      `pages` is the order in which the loop popped URLs. */
  method FindEmails(web: Web, base: Url, ghost site: set<Url>)
    returns (emails: set<Email>, ghost pages: seq<Url>)
    requires CrawlBounded(web, base, site)
    ensures Run(web, base, pages).Some?
    ensures Halted(Run(web, base, pages).value)
    ensures emails == Run(web, base, pages).value.emails
    ensures emails == Harvested(web, pages)
    ensures forall e :: e in emails <==> exists i :: HarvestedFrom(web, pages, i, e)
  {
    emails := {};
    var toVisit: set<Url> := {base};
    var visited: set<Url> := {};
    var attempt: nat := 0;
    pages := [];
    assert Run(web, base, []).Some?;
    while toVisit != {}
      invariant attempt == |pages|
      invariant Run(web, base, pages) == Some(Crawl(toVisit, visited, emails))
      invariant |toVisit| <= Cap
      invariant visited !! toVisit
      invariant visited + toVisit <= site
      decreases |site - visited|, |toVisit|
    {
      var page :| page in toVisit;
      var outcome := web.fetch(attempt, page);
      ghost var before := Crawl(toVisit, visited, emails);
      ghost var after := Step(web, base, before, page, outcome);
      StepProgress(web, base, before, page, outcome, site);
      RunExtendBounded(web, base, site, pages, page);
      toVisit := toVisit - {page};
      pages := pages + [page];
      attempt := attempt + 1;
      match outcome {
        case Fail =>
        case Ok(hrefs) =>
          visited := visited + {page};
          emails := AddEmails(emails, hrefs);
          toVisit := QueueLinks(web, base, hrefs, toVisit, visited);
          if |toVisit| > Cap {
            assert Crawl(toVisit, visited, emails) == after;
            RunHarvest(web, base, pages);
            return;
          }
      }
      assert Crawl(toVisit, visited, emails) == after;
    }
    RunHarvest(web, base, pages);
  }
}
