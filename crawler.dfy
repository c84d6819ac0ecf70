/** `get_internal_links`: the recursive same-site crawl from the seed URL,
    run sequentially. The site is a finite map from URL to the outcome of each
    successive fetch attempt; `netloc` and `urljoin` are abstract functions. */
module Crawl {
  import opened Text
  import opened Order
  import opened Urls

  /** `max_retries`: fetch attempts per URL. */
  const MaxRetries: nat := 3

  /** What one `session.get(url, timeout=30)` attempt yields: a response
      with its status code and the `href` values of its `<a>` tags, a
      timeout, or any other error. */
  datatype Response =
    | Reply(status: int, hrefs: seq<string>)
    | TimedOut
    | Failed(message: string)

  lemma {:induction false} SubsetCard(a: set<Url>, b: set<Url>)
    requires a <= b
    ensures |a| <= |b|
    decreases |a|
  {
    if a != {} {
      var x :| x in a;
      SubsetCard(a - {x}, b - {x});
    }
  }

  /** Fewer URLs are left unvisited once a new one has been claimed. */
  lemma FewerUnvisited(universe: set<Url>, before: set<Url>, after: set<Url>, url: Url)
    requires url in universe && url !in before
    requires before + {url} <= after
    ensures |universe - after| < |universe - before|
  {
    SubsetCard(universe - after, (universe - before) - {url});
  }

  /** The first `i + 1` elements are the first `i` and the `i`-th; all `i`
      of them are the whole sequence. */
  lemma PrefixStep(s: seq<Url>, i: int)
    requires 0 <= i <= |s|
    ensures i < |s| ==> forall t :: t in s[..i + 1] ==> t in s[..i] || t == s[i]
    ensures i == |s| ==> forall t :: t in s ==> t in s[..i]
  {
    if i < |s| {
      assert s[..i + 1] == s[..i] + [s[i]];
    } else {
      assert s[..i] == s;
    }
  }

  /** What the crawl does on the network, in order: one fetch attempt of a
      URL, or the one-second pause before retrying it. */
  datatype Event = Get(url: Url) | Sleep(url: Url)

  /** The events of `url` in `trace`, in their order there. */
  function Of(trace: seq<Event>, url: Url): (r: seq<Event>)
    ensures |r| <= |trace|
    ensures forall e :: e in r ==> e in trace && e.url == url
  {
    if trace == [] then []
    else
      var last := trace[|trace| - 1];
      Of(trace[..|trace| - 1], url) + if last.url == url then [last] else []
  }

  /** A URL with no event in `trace` has none in its projection. */
  lemma OfNone(trace: seq<Event>, url: Url)
    requires forall e :: e in trace ==> e.url != url
    ensures Of(trace, url) == []
  {
  }

  /** One more event adds to the events of its own URL only. */
  lemma OfAppend(trace: seq<Event>, e: Event, url: Url)
    ensures Of(trace + [e], url) == Of(trace, url) + if e.url == url then [e] else []
  {
    assert (trace + [e])[..|trace|] == trace;
  }

  /** The events of one URL under the retry loop: a fetch, then a pause and
      a fetch again, ..., with at most `MaxRetries` fetches. */
  predicate Alternates(url: Url, s: seq<Event>) {
    && |s| < 2 * MaxRetries
    && forall i :: 0 <= i < |s| ==> s[i] == if i % 2 == 0 then Get(url) else Sleep(url)
  }

  /** A fetch after `k` fetches and pauses, or a pause after the `k + 1`-th
      fetch, keeps a URL's events alternating. */
  lemma AlternatesStep(url: Url, s: seq<Event>, k: nat)
    requires Alternates(url, s)
    requires (|s| == 2 * k && k < MaxRetries) || (|s| == 2 * k + 1 && k < MaxRetries - 1)
    ensures Alternates(url, s + [if |s| == 2 * k then Get(url) else Sleep(url)])
  {
  }

  /** Alternating events hold one fetch more than pauses, or as many, and so
      at most `MaxRetries` fetches. */
  lemma {:induction false} AlternatesCounts(url: Url, s: seq<Event>)
    requires Alternates(url, s)
    ensures multiset(s)[Get(url)] == (|s| + 1) / 2 <= MaxRetries
    ensures multiset(s)[Sleep(url)] == |s| / 2
    decreases |s|
  {
    if s != [] {
      var init := s[..|s| - 1];
      assert s == init + [s[|s| - 1]];
      assert Alternates(url, init);
      AlternatesCounts(url, init);
    }
  }

  class Crawler {
    /** The seed URL (`base_url`); links are resolved against it. */
    const base: Url
    /** Outcomes of the successive fetch attempts of each URL; a URL outside
        the map, or an attempt past its list, fails. */
    const site: map<Url, seq<Response>>
    const netloc: Url -> string
    const urljoin: (Url, string) -> Url
    /** Every URL the crawl could ever be asked to visit. */
    ghost const Universe: set<Url>

    /** `visited_urls`, shared by every call of the crawl. */
    var visited: set<Url>
    /** The discovery log: `full_sitemap.txt` as first written. */
    var log: seq<Url>
    /** Every fetch attempt and every pause before a retry, in order. */
    var trace: seq<Event>

    function Fetch(url: Url, attempt: nat): Response {
      if url in site && attempt < |site[url]| then site[url][attempt] else Failed("no response")
    }

    /** The seed and every link some page of the site could yield belong to
        `Universe`. */
    ghost predicate Closed() {
      && base in Universe
      && forall u, k, h :: u in site && 0 <= k < |site[u]| && site[u][k].Reply? && h in site[u][k].hrefs
           ==> urljoin(base, h) in Universe
    }

    predicate SameSite(url: Url) {
      netloc(url) == netloc(base)
    }

    /** The index of the attempt that ends the retry loop when it starts at
        attempt `k`: the first one that does not time out, or the last one
        allowed. Every attempt before it timed out. */
    function StopAt(url: Url, k: nat): (r: nat)
      requires k < MaxRetries
      ensures k <= r < MaxRetries
      ensures forall j :: k <= j < r ==> Fetch(url, j).TimedOut?
      ensures r < MaxRetries - 1 ==> !Fetch(url, r).TimedOut?
      decreases MaxRetries - k
    {
      if k < MaxRetries - 1 && Fetch(url, k).TimedOut? then StopAt(url, k + 1) else k
    }

    /** `u` is a link on the page that ended the retry loop of `w`, and that
        page answered 200: the only links the crawl of `w` follows. */
    ghost predicate Found(w: Url, u: Url) {
      var r := Fetch(w, StopAt(w, 0));
      r.Reply? && r.status == 200 && exists h :: h in r.hrefs && u == urljoin(base, h)
    }

    /** When attempt `k` of `url` got a 200 reply, every link on it that is on
        the seed's host has been visited. */
    ghost predicate LinksVisited(url: Url, k: nat)
      reads this`visited
    {
      Fetch(url, k).Reply? && Fetch(url, k).status == 200 ==>
        forall h :: h in Fetch(url, k).hrefs && SameSite(urljoin(base, h)) ==> urljoin(base, h) in visited
    }

    /** `url` has been crawled in full: its events are the fetches of the
        whole retry loop with a pause between each two (`Valid` fixes their
        order), and, if the attempt that ended the loop got a 200 reply,
        every same-host link on it is visited. */
    ghost predicate Explored(url: Url)
      reads this`visited, this`trace
    {
      && |Of(trace, url)| == 2 * StopAt(url, 0) + 1
      && LinksVisited(url, StopAt(url, 0))
    }

    /** A URL once explored stays so while the visited set only grows and its
        own events are left alone. */
    twostate lemma ExploredKept(v: Url)
      requires old(Explored(v))
      requires old(visited) <= visited
      requires Of(trace, v) == Of(old(trace), v)
      ensures Explored(v)
    {
    }

    /** Every URL in `log` is the seed or a link found on a page logged
        before it. */
    ghost predicate Traced(log: seq<Url>) {
      forall i :: 0 <= i < |log| ==> log[i] == base || exists j :: 0 <= j < i && Found(log[j], log[i])
    }

    /** Logging the seed, or a link found on a logged page, keeps the log
        traced. */
    lemma TracedAppend(log: seq<Url>, url: Url)
      requires Traced(log)
      requires url == base || exists j :: 0 <= j < |log| && Found(log[j], url)
      ensures Traced(log + [url])
    {
      var log' := log + [url];
      forall i | 0 <= i < |log'| && log'[i] != base
        ensures exists j :: 0 <= j < i && Found(log'[j], log'[i])
      {
        if i < |log| {
          var j :| 0 <= j < i && Found(log[j], log[i]);
          assert log'[j] == log[j];
        } else {
          var j :| 0 <= j < |log| && Found(log[j], url);
          assert log'[j] == log[j];
        }
      }
    }

    /** `S` holds the seed and is closed under following links: every
        same-host link found on a page of `S` is in `S`. The URLs reachable
        from the seed form the least such set. */
    ghost predicate LinkClosed(S: set<Url>) {
      && base in S
      && forall w, u :: w in S && Found(w, u) && SameSite(u) ==> u in S
    }

    /** Every logged URL is in every link-closed set. */
    lemma {:induction false} LoggedInClosed(S: set<Url>, i: int)
      requires Valid() && LinkClosed(S) && 0 <= i < |log|
      ensures log[i] in S
      decreases i
    {
      if log[i] != base {
        var j :| 0 <= j < i && Found(log[j], log[i]);
        LoggedInClosed(S, j);
        assert log[i] in visited;
      }
    }

    /** The crawl visits only URLs reachable from the seed. */
    lemma VisitedLeast(S: set<Url>)
      requires Valid() && LinkClosed(S)
      ensures visited <= S
    {
      forall u | u in visited ensures u in S {
        var i :| 0 <= i < |log| && log[i] == u;
        LoggedInClosed(S, i);
      }
    }

    /** Once every visited URL is explored and the seed is visited, the
        visited set is link-closed: the crawl missed no reachable URL. */
    lemma VisitedClosed()
      requires base in visited
      requires forall u :: u in visited ==> Explored(u)
      ensures LinkClosed(visited)
    {
    }

    /** The visited set and the discovery log agree, and every URL in them
        is on the seed's host and traced back to the seed. */
    ghost predicate LogValid(visited: set<Url>, log: seq<Url>) {
      && visited <= Universe
      && (forall u :: u in log <==> u in visited)
      && Distinct(log)
      && (forall u :: u in visited ==> SameSite(u))
      && Traced(log)
    }

    /** Only visited URLs are fetched, and each one's events alternate. */
    ghost predicate TraceValid(visited: set<Url>, trace: seq<Event>) {
      && (forall e :: e in trace ==> e.url in visited)
      && (forall u :: Alternates(u, Of(trace, u)))
    }

    ghost predicate Valid()
      reads this
    {
      LogValid(visited, log) && TraceValid(visited, trace)
    }

    /** Claiming a new URL keeps both invariants, and it has no events yet. */
    lemma ClaimStep(visited: set<Url>, log: seq<Url>, trace: seq<Event>, url: Url)
      requires LogValid(visited, log) && TraceValid(visited, trace)
      requires url in Universe && url !in visited && SameSite(url)
      requires url == base || exists j :: 0 <= j < |log| && Found(log[j], url)
      ensures LogValid(visited + {url}, log + [url]) && TraceValid(visited + {url}, trace)
      ensures Of(trace, url) == []
    {
      assert url !in log;
      OfNone(trace, url);
      TracedAppend(log, url);
      assert Distinct(log + [url]);
    }

    /** The next event of the retry loop of `url` keeps the trace invariant:
        a fetch after `k` fetches and pauses, or a pause after the `k + 1`-th
        fetch. */
    lemma TraceStep(visited: set<Url>, trace: seq<Event>, url: Url, k: nat, e: Event)
      requires TraceValid(visited, trace) && url in visited
      requires (|Of(trace, url)| == 2 * k && k < MaxRetries && e == Get(url))
            || (|Of(trace, url)| == 2 * k + 1 && k < MaxRetries - 1 && e == Sleep(url))
      ensures TraceValid(visited, trace + [e])
      ensures forall v :: Of(trace + [e], v) == Of(trace, v) + if v == url then [e] else []
    {
      forall v
        ensures Of(trace + [e], v) == Of(trace, v) + if v == url then [e] else []
        ensures Alternates(v, Of(trace + [e], v))
      {
        OfAppend(trace, e, v);
        if v == url {
          AlternatesStep(url, Of(trace, url), k);
        }
      }
    }

    constructor (base: Url, site: map<Url, seq<Response>>, netloc: Url -> string, urljoin: (Url, string) -> Url)
      ensures Valid() && Closed()
      ensures this.base == base && this.site == site && this.netloc == netloc && this.urljoin == urljoin
      ensures visited == {} && log == [] && trace == []
    {
      this.base := base;
      this.site := site;
      this.netloc := netloc;
      this.urljoin := urljoin;
      var links := set u, k, h | u in site && 0 <= k < |site[u]| && site[u][k].Reply? && h in site[u][k].hrefs
        :: urljoin(base, h);
      Universe := {base} + links;
      visited, log, trace := {}, [], [];
    }

    /** The discovery log has one line per visited URL, and the crawl visits
        no more URLs than the site can yield. */
    lemma LogCountsVisited()
      requires Valid()
      ensures |log| == |visited| <= |Universe|
    {
      DistinctCard(log);
      assert (set x | x in log) == visited;
      SubsetCard(visited, Universe);
    }

    /** The links of a fetched page that the crawl follows: resolved against
        the seed, on the seed's host, and not yet visited when the page was
        read (all tasks are created before any of them runs). */
    method FollowedLinks(hrefs: seq<string>) returns (tasks: seq<Url>)
      ensures forall t :: t in tasks ==> SameSite(t) && t !in visited
      ensures forall t :: t in tasks ==> exists h :: h in hrefs && t == urljoin(base, h)
      ensures forall h :: h in hrefs && SameSite(urljoin(base, h)) && urljoin(base, h) !in visited
                ==> urljoin(base, h) in tasks
    {
      var links := seq(|hrefs|, i requires 0 <= i < |hrefs| => urljoin(base, hrefs[i]));
      tasks := [];
      for i := 0 to |links|
        invariant forall t :: t in tasks ==> SameSite(t) && t !in visited
        invariant forall t :: t in tasks ==> exists h :: h in hrefs && t == urljoin(base, h)
        invariant forall j :: 0 <= j < i && SameSite(links[j]) && links[j] !in visited ==> links[j] in tasks
      {
        var link := links[i];
        if SameSite(link) && link !in visited {
          tasks := tasks + [link];
        }
      }
      forall h | h in hrefs && SameSite(urljoin(base, h)) && urljoin(base, h) !in visited
        ensures urljoin(base, h) in tasks
      {
        var j :| 0 <= j < |hrefs| && hrefs[j] == h;
        assert links[j] == urljoin(base, h);
      }
    }

    /** `get_internal_links(session, base_url, url, visited_urls, file)`:
        a URL already visited is a no-op; otherwise it is claimed and logged
        before its first fetch. `url` is the seed or a link found on a page
        already logged. */
    method Crawl(url: Url)
      requires Valid() && Closed()
      requires url in Universe && SameSite(url)
      requires url == base || exists j :: 0 <= j < |log| && Found(log[j], url)
      modifies this
      decreases |Universe - visited|, 1
      ensures Valid()
      ensures url in visited
      ensures old(visited) <= visited
      ensures old(log) <= log && old(trace) <= trace
      ensures url in old(visited) ==> visited == old(visited) && log == old(log) && trace == old(trace)
      ensures url !in old(visited) ==> old(log) + [url] <= log && old(trace) + [Get(url)] <= trace
      ensures forall v :: v in visited && v !in old(visited) ==> Explored(v)
      ensures forall v :: v in old(visited) ==> Of(trace, v) == Of(old(trace), v)
    {
      if url in visited {
        return;
      }
      Claim(url);
      FewerUnvisited(Universe, old(visited), visited, url);
      ghost var claimed := log;
      FetchAndFollow(url);
      PrefixTrans(old(log), claimed, log);
      PrefixTrans(old(trace), old(trace) + [Get(url)], trace);
    }

    /** `visited_urls.add(url)` and the write of `url` to the log. */
    method Claim(url: Url)
      requires Valid()
      requires url in Universe && url !in visited && SameSite(url)
      requires url == base || exists j :: 0 <= j < |log| && Found(log[j], url)
      modifies this
      ensures Valid()
      ensures visited == old(visited) + {url} && log == old(log) + [url]
      ensures trace == old(trace)
      ensures Of(trace, url) == []
    {
      ClaimStep(visited, log, trace, url);
      visited := visited + {url};
      log := log + [url];
    }

    /** The crawl has moved on from the state `visited0`, `log0`, `trace0`
        in which the retry loop of `url` started: the invariant holds, the
        visited set, the log and the trace have only grown, every URL
        visited since is explored, and no other URL known then has new
        events. */
    ghost predicate Grown(url: Url, visited0: set<Url>, log0: seq<Url>, trace0: seq<Event>)
      reads this
    {
      && Valid()
      && url in visited0 && visited0 <= visited
      && log0 <= log && trace0 <= trace
      && (forall v :: v in visited && v !in visited0 ==> Explored(v))
      && (forall v :: v in visited0 && v != url ==> Of(trace, v) == Of(trace0, v))
    }

    /** The retry loop of `url` is about to make attempt `attempt`: every
        attempt before it timed out, and each but the last was followed by
        a pause. */
    ghost predicate Retrying(url: Url, attempt: nat, visited0: set<Url>, log0: seq<Url>, trace0: seq<Event>)
      reads this
    {
      && Grown(url, visited0, log0, trace0)
      && attempt <= MaxRetries
      && |Of(trace, url)| == (if attempt < MaxRetries then 2 * attempt else 2 * MaxRetries - 1)
      && (attempt == 0 ==> trace == trace0)
      && (attempt > 0 ==> trace0 + [Get(url)] <= trace)
      && (attempt < MaxRetries ==> StopAt(url, 0) == StopAt(url, attempt))
      && (attempt == MaxRetries ==> StopAt(url, 0) == MaxRetries - 1 && Fetch(url, MaxRetries - 1).TimedOut?)
    }

    /** The retry loop of `get_internal_links` for a URL just claimed: up to
        `MaxRetries` attempts, each one after a timeout and a pause. */
    method FetchAndFollow(url: Url)
      requires Valid() && Closed()
      requires url in visited && Of(trace, url) == []
      modifies this
      decreases |Universe - visited|, 6
      ensures Valid()
      ensures old(visited) <= visited
      ensures old(log) <= log && old(trace) + [Get(url)] <= trace
      ensures Explored(url)
      ensures forall v :: v in visited && v !in old(visited) ==> Explored(v)
      ensures forall v :: v in old(visited) && v != url ==> Of(trace, v) == Of(old(trace), v)
    {
      for attempt := 0 to MaxRetries
        invariant Retrying(url, attempt, old(visited), old(log), old(trace))
      {
        SubsetCard(Universe - visited, Universe - old(visited));
        var timedOut := Retry(url, attempt, old(visited), old(log), old(trace));
        if !timedOut {
          return;
        }
      }
    }

    /** One turn of the retry loop of `url`: the attempt, and the pause after
        it when it timed out and another attempt is left. When it did not
        time out the loop ends with `url` explored. */
    method Retry(url: Url, attempt: nat, ghost visited0: set<Url>, ghost log0: seq<Url>, ghost trace0: seq<Event>)
      returns (timedOut: bool)
      requires Closed() && attempt < MaxRetries
      requires Retrying(url, attempt, visited0, log0, trace0)
      modifies this
      decreases |Universe - visited|, 5
      ensures Grown(url, visited0, log0, trace0)
      ensures trace0 + [Get(url)] <= trace
      ensures timedOut ==> Retrying(url, attempt + 1, visited0, log0, trace0)
      ensures !timedOut ==> Explored(url)
    {
      ghost var log1, trace1 := log, trace;
      timedOut := Attempt(url, attempt);
      PrefixTrans(log0, log1, log);
      PrefixTrans(trace1, trace1 + [Get(url)], trace);
      PrefixTrans(trace0, trace1, trace);
      if attempt == 0 {
        assert trace0 == trace1;
      } else {
        PrefixTrans(trace0 + [Get(url)], trace1, trace);
      }
      forall v | v in visited && v !in visited0 ensures Explored(v) {
        if v in old(visited) {
          ExploredKept(v);
        }
      }
      if !timedOut {
        assert StopAt(url, attempt) == attempt;
      } else if attempt < MaxRetries - 1 {
        assert StopAt(url, attempt) == StopAt(url, attempt + 1);
      } else {
        assert StopAt(url, attempt) == attempt;
      }
    }

    /** One pass of the retry loop's body: a fetch of `url`; on a 200 reply
        a crawl of the followed links, on a timeout that is not the last
        attempt a pause. Reports whether the attempt timed out. */
    method Attempt(url: Url, attempt: nat) returns (timedOut: bool)
      requires Valid() && Closed()
      requires url in visited
      requires attempt < MaxRetries && |Of(trace, url)| == 2 * attempt
      requires StopAt(url, 0) == StopAt(url, attempt)
      modifies this
      decreases |Universe - visited|, 4
      ensures Valid()
      ensures old(visited) <= visited
      ensures old(log) <= log && old(trace) + [Get(url)] <= trace
      ensures |Of(trace, url)| == if timedOut && attempt < MaxRetries - 1 then 2 * attempt + 2 else 2 * attempt + 1
      ensures timedOut <==> Fetch(url, attempt).TimedOut?
      ensures LinksVisited(url, attempt)
      ensures !(Fetch(url, attempt).Reply? && Fetch(url, attempt).status == 200) ==>
                && visited == old(visited) && log == old(log)
                && trace == old(trace) + [Get(url)] + if timedOut && attempt < MaxRetries - 1 then [Sleep(url)] else []
      ensures forall v :: v in visited && v !in old(visited) ==> Explored(v)
      ensures forall v :: v in old(visited) && v != url ==> Of(trace, v) == Of(old(trace), v)
    {
      Request(url, attempt);
      var response := Fetch(url, attempt);
      timedOut := response.TimedOut?;
      if response.Reply? && response.status == 200 {
        assert StopAt(url, attempt) == attempt;
        SubsetCard(Universe - visited, Universe - old(visited));
        ghost var sent := trace;
        FollowPage(url, response.hrefs);
        PrefixTrans(old(trace) + [Get(url)], sent, trace);
      } else if timedOut && attempt < MaxRetries - 1 {
        Pause(url, attempt);
      }
    }

    /** One `session.get(url)` of a claimed URL that has attempts left. */
    method Request(url: Url, attempt: nat)
      requires Valid()
      requires url in visited
      requires |Of(trace, url)| == 2 * attempt && attempt < MaxRetries
      modifies this
      ensures Valid()
      ensures visited == old(visited) && log == old(log)
      ensures trace == old(trace) + [Get(url)]
      ensures Of(trace, url) == Of(old(trace), url) + [Get(url)]
      ensures forall v :: v != url ==> Of(trace, v) == Of(old(trace), v)
    {
      TraceStep(visited, trace, url, attempt, Get(url));
      trace := trace + [Get(url)];
    }

    /** `await asyncio.sleep(1)` after a timed-out attempt of `url`. */
    method Pause(url: Url, attempt: nat)
      requires Valid()
      requires url in visited
      requires |Of(trace, url)| == 2 * attempt + 1 && attempt < MaxRetries - 1
      modifies this
      ensures Valid()
      ensures visited == old(visited) && log == old(log)
      ensures trace == old(trace) + [Sleep(url)]
      ensures Of(trace, url) == Of(old(trace), url) + [Sleep(url)]
      ensures forall v :: v != url ==> Of(trace, v) == Of(old(trace), v)
    {
      TraceStep(visited, trace, url, attempt, Sleep(url));
      trace := trace + [Sleep(url)];
    }

    /** The links of `url`'s page, which answered 200 on the attempt that
        ended its retry loop, followed. */
    method FollowPage(url: Url, hrefs: seq<string>)
      requires Valid() && Closed()
      requires url in visited
      requires Fetch(url, StopAt(url, 0)) == Reply(200, hrefs)
      modifies this
      decreases |Universe - visited|, 3
      ensures Valid()
      ensures old(visited) <= visited
      ensures forall h :: h in hrefs && SameSite(urljoin(base, h)) ==> urljoin(base, h) in visited
      ensures old(log) <= log && old(trace) <= trace
      ensures forall v :: v in visited && v !in old(visited) ==> Explored(v)
      ensures forall v :: v in old(visited) ==> Of(trace, v) == Of(old(trace), v)
    {
      var k := StopAt(url, 0);
      assert url in site && k < |site[url]| && site[url][k] == Reply(200, hrefs);
      var tasks := FollowedLinks(hrefs);
      FollowAll(url, tasks);
    }

    /** `await asyncio.gather(*tasks)` for the tasks of `page`, run one task
        after the other. */
    method FollowAll(page: Url, tasks: seq<Url>)
      requires Valid() && Closed()
      requires page in visited
      requires forall t :: t in tasks ==> t in Universe && SameSite(t) && Found(page, t)
      modifies this
      decreases |Universe - visited|, 2
      ensures Valid()
      ensures old(visited) <= visited
      ensures forall t :: t in tasks ==> t in visited
      ensures old(log) <= log && old(trace) <= trace
      ensures forall v :: v in visited && v !in old(visited) ==> Explored(v)
      ensures forall v :: v in old(visited) ==> Of(trace, v) == Of(old(trace), v)
    {
      for i := 0 to |tasks|
        invariant Valid()
        invariant old(visited) <= visited
        invariant forall t :: t in tasks[..i] ==> t in visited
        invariant old(log) <= log && old(trace) <= trace
        invariant forall v :: v in visited && v !in old(visited) ==> Explored(v)
        invariant forall v :: v in old(visited) ==> Of(trace, v) == Of(old(trace), v)
      {
        SubsetCard(Universe - visited, Universe - old(visited));
        assert page in log;
        ghost var j :| 0 <= j < |log| && log[j] == page;
        assert Found(log[j], tasks[i]);
        ghost var log0, trace0 := log, trace;
        Crawl(tasks[i]);
        PrefixTrans(old(log), log0, log);
        PrefixTrans(old(trace), trace0, trace);
        PrefixStep(tasks, i);
      }
      PrefixStep(tasks, |tasks|);
    }
  }

  /** The crawl `main` runs: a fresh `visited_urls` set and log, then
      `get_internal_links` on the seed. The seed opens the log; every later
      URL in it is a link found on the final 200 page of an earlier one; and
      every URL it visits is crawled in full, so the visited set holds every
      same-host link of every page that answered 200. The visited set is
      thus exactly what the seed reaches through such links. */
  method CrawlSite(base: Url, site: map<Url, seq<Response>>, netloc: Url -> string, urljoin: (Url, string) -> Url)
    returns (c: Crawler)
    ensures c.base == base && c.site == site && c.netloc == netloc && c.urljoin == urljoin
    ensures c.Valid()
    ensures base in c.visited && |c.log| > 0 && c.log[0] == base
    ensures forall i :: 0 < i < |c.log| ==> exists j :: 0 <= j < i && c.Found(c.log[j], c.log[i])
    ensures forall u :: u in c.visited ==> c.Explored(u)
    ensures c.LinkClosed(c.visited)
    ensures forall S :: c.LinkClosed(S) ==> c.visited <= S
  {
    c := new Crawler(base, site, netloc, urljoin);
    c.Crawl(base);
    forall i | 0 < i < |c.log|
      ensures exists j :: 0 <= j < i && c.Found(c.log[j], c.log[i])
    {
      assert c.log[i] != c.log[0];
    }
    c.VisitedClosed();
    forall S | c.LinkClosed(S) ensures c.visited <= S {
      c.VisitedLeast(S);
    }
  }
}
