# find_emails crawl model

A Dafny model of the crawl loop of `find_emails` in the domaintoemail email
scanner. Given a seed URL, the loop keeps three sets: the frontier `to_visit`
(seeded with the URL), `visited` and `emails`. On each turn it pops an arbitrary
frontier URL and requests it. A `RequestException` skips the page. On success
the page is marked visited. Every anchor href that starts with `mailto` gives
an address, with each `"mailto:"` in it deleted. Every href is resolved against
the seed URL, and the result is queued when its hostname equals the seed's and
it is not visited. The crawl ends when the frontier is empty, or right after a
page's expansion when the frontier holds more than 500 URLs.

Files:

- `mailto.dfy` (module `Mailto`): the mailto selector test and the
  `str.replace("mailto:", "")` pass as pure functions, with lemmas that pin the
  pass down.
- `crawler.dfy` (module `Crawler`): the outside world as a `Web` value, one
  loop turn as the pure function `Step`, and the replay `Run` of a whole crawl
  from the order in which pages were popped. It also holds the loop itself, the
  method `FindEmails`, with its two inner loops `AddEmails` and `QueueLinks`.
  `FindEmails` is proved to end in the state `Run` gives for the pages it
  popped. The lemmas about `Run` state the crawl's invariants.

The parts the loop cannot see are parameters of `Web`:

- `resolve` stands for `urljoin`.
- `host` stands for `urlparse(...).hostname`, as an `Option`, because a
  resolved `mailto:` URL has no hostname.
- `fetch(n, url)` is the outcome of the n-th request of the crawl: `Fail` for a
  `RequestException`, or `Ok(hrefs)`, the href values of the page's anchors
  that have one, in document order. The request index lets a page fail once and
  load later.

The frontier pop is Python's arbitrary `set.pop`, written with `:|`.

Details of the loop the model keeps:

- A page enters `visited` only after a successful request, not before it.
- The email selector needs only the prefix `mailto`, without the colon.
- Every `"mailto:"` in the href is deleted, not just a leading one.
- Every href is resolved, an empty one included. With `urljoin` an empty href
  gives the seed itself, and the seed is never queued again once it has been
  popped: it is then visited, or the frontier is empty (`SeedVisited`).
- Hostnames are compared as optional values, so two URLs without a hostname
  count as same-host.
- The 500-URL test runs only after a successful fetch.

## Model

| member | source | states |
|---|---|---|
| `Mailto.StripMailto` | find_email_addresses.py:115 | deleting `"mailto:"` never lengthens the href |
| `Mailto.StripMailtoUnchangedIff` | find_email_addresses.py:115 | the address equals the href exactly when the href contains no `"mailto:"` (both directions) |
| `Mailto.StripMailtoSplice` | find_email_addresses.py:115 | the one-pass deletion of an explicit `"mailto:"` splits into independent passes over the text before it and the text after it |
| `Mailto.StripMailtoPrefix` | find_email_addresses.py:115 | an href of the form `mailto:` + t, with no further `"mailto:"` in t, yields exactly t |
| `Mailto.ColonFreeUnchanged` | find_email_addresses.py:115 | an href without a colon holds no `"mailto:"` and is stored unchanged |
| `Mailto.StripMailtoKeepsQuery` | find_email_addresses.py:114-115 | `mailto:a@b.com?subject=hi` yields `a@b.com?subject=hi`: the query is kept verbatim |
| `Mailto.MailtoSelected` | find_email_addresses.py:114-115 | the `a[href^=mailto]` selector picks every `mailto:` href, whatever follows, and also every colon-less `mailto` + t href, which is then stored whole |
| `Mailto.StripMailtoOnePass` | find_email_addresses.py:115 | the pass is not repeated: `mailmailto:to:` yields `mailto:`, which still holds one |
| `Crawler.SameHost` | find_email_addresses.py:118 | the host test compares optional hostnames: the seed passes, and when the seed has no hostname exactly the hostless URLs pass |
| `Crawler.Step` | find_email_addresses.py:106-126 | one turn: the popped page leaves the frontier; visited and emails never shrink; a failed fetch changes nothing but removes the page; a successful one adds exactly the page to visited and exactly its mailto addresses to emails, keeps the rest of the frontier, queues every unvisited same-host link, and queues nothing visited, off-host or not linked from the page |
| `Crawler.StepProgress` | find_email_addresses.py:105-126 | over a finite URL universe each turn decreases (unvisited URLs, frontier size) lexicographically |
| `Crawler.RunExtendBounded` | find_email_addresses.py:105-126 | when some finite site holds every frontier a crawl can reach, one more turn of a reachable crawl is again reachable and queues only URLs of that site |
| `Crawler.StepKeepsInvariant` | find_email_addresses.py:106-120 | a turn keeps `visited` and `to_visit` disjoint, and inside any site that holds the seed and the fetched page's same-host links |
| `Crawler.FailedPageRequeued` | find_email_addresses.py:106-126 | a page whose request failed stays unvisited and is queued again by a later page that links to it |
| `Crawler.Run` | find_email_addresses.py:103-126 | a crawl replayed from its pop order starts from the frontier holding only the seed, and every reachable state keeps visited and frontier disjoint |
| `Crawler.RunState` | find_email_addresses.py:99-128 | in every reachable state, visited is exactly the successfully fetched pages, emails exactly their addresses, the frontier is the seed or found links, and visited and frontier are disjoint |
| `Crawler.FoundOrigin` | find_email_addresses.py:116-120 | every found link is `resolve(seed, href)` for an href of a successfully fetched page, and has the seed's hostname |
| `Crawler.RunFrontierOrigin` | find_email_addresses.py:103-120 | every queued URL other than the seed was found that way |
| `Crawler.HarvestedIff` | find_email_addresses.py:111-115 | an address is harvested exactly when some successful request returned a page with a mailto href that yields it |
| `Crawler.RunHarvest` | find_email_addresses.py:114-115 | the addresses of a reachable state are exactly those on its successfully fetched pages |
| `Crawler.RunPrefix` | find_email_addresses.py:103-123 | every prefix of a crawl is reachable; each loop head saw 1 to 500 queued URLs; visited and emails only grow |
| `Crawler.SeedVisited` | find_email_addresses.py:103-111 | the first page popped is the seed, and from then on the seed is visited or the frontier is empty |
| `Crawler.CapOnlyAfterSuccess` | find_email_addresses.py:114-123 | more than 500 queued URLs happens only right after a successful fetch, and that page's addresses are already kept |
| `Crawler.AddEmails` | find_email_addresses.py:114-115 | the first inner loop adds exactly the page's mailto addresses |
| `Crawler.QueueLinks` | find_email_addresses.py:116-120 | the second inner loop adds exactly the page's unvisited same-host links, resolved against the seed |
| `Crawler.FindEmails` | find_email_addresses.py:97-128 | the loop follows a reachable crawl order and stops only on an empty frontier or one above 500; the result is exactly the addresses on the pages it fetched successfully |

## Left out

- `FindEmails` requires `CrawlBounded`: one finite set `site` holds every frontier that any pop order can reach. Each state offers at most 500 pops, so by König's lemma this holds exactly when every pop order ends; only that direction is used, the converse is not proved here. The Python loop does not end on a web where some pop order never ends, and a Dafny method must terminate.
- `FindEmails` returns the address set. The conversion `list(emails)` is left out because its order is arbitrary; its elements are distinct because they come from a set.
- HTTP requests, the random User-Agent pool and `get_random_user_agent` (lines 85-95, 108-109) are network I/O and randomness. They are left out; only the request's outcome is modelled, as `Web.fetch`.
- The 1 to 2 second `time.sleep` throttle (line 110) is wall-clock delay with no effect on the three sets.
- BeautifulSoup parsing and CSS selection (lines 112-113) are a foreign library. A page is its sequence of href values.
- The internals of `urljoin` and `urlparse().hostname`, including hostname lowercasing, are a foreign library. They are the uninterpreted `Web.resolve` and `Web.host`.
- Console messages (lines 122, 125) have no effect on the result.
- The Flask `/emails` endpoint, `main` and argument handling (lines 130-160) are glue around one call that prepends `http://`.
- The commented-out earlier version (lines 1-62) is dead code.
- Exceptions other than `RequestException`, such as parser errors, propagate out of the Python loop. They are not modelled.
