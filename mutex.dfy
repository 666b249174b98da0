/**
 * main/15-mutex.go: a map-backed counter and the web-crawler exercise.
 * Locks only serialise whole operations, so each operation is modelled as
 * one atomic step; goroutines are run to completion one after another.
 */
module Mutex {
  import opened Numbers
  import opened Wrappers

  // ---------------------------------------------------------------------
  // SafeCounter

  /** `SafeCounter`: the map `v`; the mutex is left out. */
  class SafeCounter {
    var v: map<string, Int64>

    /** `SafeCounter{v: make(map[string]int)}` */
    constructor ()
      ensures v == map[]
    {
      v := map[];
    }

    /** Go's `c.v[key]`: the stored count, or the zero value for a missing key. */
    ghost function Count(key: string): Int64
      reads this
    {
      if key in v then v[key] else 0
    }

    /** `Inc(key)`: `c.v[key]++`, which also inserts a missing key. */
    method Inc(key: string)
      modifies this
      ensures v == old(v)[key := Wrap(old(Count(key)) + 1)]
      ensures Count(key) == Wrap(old(Count(key)) + 1)
      ensures forall k :: k != key ==> Count(k) == old(Count(k))
    {
      var n: int := if key in v then v[key] else 0;
      v := v[key := Wrap(n + 1)];
    }

    /** `Value(key)`: reads the count without changing the map. */
    method Value(key: string) returns (r: Int64)
      ensures r == Count(key)
      ensures key !in v ==> r == 0
    {
      r := if key in v then v[key] else 0;
    }
  }

  /**
   * A fresh counter incremented `n` times on one key, then read: `n`,
   * wrapped to 64 bits.  This covers sequential use only: all `n`
   * increments finish before the read.
   */
  method IncrementThenRead(key: string, n: nat) returns (r: Int64)
    ensures r == Wrap(n)
  {
    var c := new SafeCounter();
    var i := 0;
    while i < n
      invariant 0 <= i <= n
      invariant c.Count(key) == Wrap(i)
    {
      WrapAdd(i, 1);
      c.Inc(key);
      i := i + 1;
    }
    r := c.Value(key);
  }

  // ---------------------------------------------------------------------
  // Fetcher

  /** `fakeResult`: a canned page body and its links. */
  datatype FakeResult = FakeResult(body: string, urls: seq<string>)

  /** `fakeFetcher`: canned results by URL (the map's pointers are never nil). */
  type FakeFetcher = map<string, FakeResult>

  /** The three results of `Fetch`: body, links and error (None for nil). */
  datatype FetchReply = FetchReply(body: string, urls: seq<string>, err: Error)

  /**
   * `fakeFetcher.Fetch(url)`: the canned result for a known URL, and for
   * any other URL an empty body, no links and the error "not found: <url>".
   */
  function Fetch(f: FakeFetcher, url: string): (r: FetchReply)
    ensures r.err == None <==> url in f
    ensures url in f ==> r.body == f[url].body && r.urls == f[url].urls
    ensures url !in f ==> r.body == "" && r.urls == [] && r.err == Some("not found: " + url)
  {
    if url in f then FetchReply(f[url].body, f[url].urls, None)
    else FetchReply("", [], Some("not found: " + url))
  }

  // ---------------------------------------------------------------------
  // Crawl, as a function of the crawl's state

  /**
   * What a crawl has done so far: the keys of `crawlUrl` (URLs claimed)
   * and every URL passed to `Fetch`, in order.
   */
  datatype CrawlState = CrawlState(claimed: set<string>, fetched: seq<string>)

  /**
   * `Crawl(url, depth, …)` run to completion: claim `url` (test-and-set on
   * `crawlUrl`), stop if `depth <= 0` or `url` was already claimed, fetch,
   * stop on an error, otherwise crawl every link in order at `depth - 1`.
   */
  function CrawlSpec(f: FakeFetcher, url: string, depth: int, st: CrawlState): (r: CrawlState)
    ensures url in r.claimed
    ensures st.claimed <= r.claimed && st.fetched <= r.fetched
    ensures depth <= 0 || url in st.claimed ==> r.fetched == st.fetched
    decreases if depth > 0 then depth else 0, 1, 0
  {
    var claimedBefore := url in st.claimed;
    var st1 := st.(claimed := st.claimed + {url});
    if depth <= 0 || claimedBefore then st1
    else
      var reply := Fetch(f, url);
      var st2 := st1.(fetched := st1.fetched + [url]);
      if reply.err.Some? then st2
      else CrawlLinks(f, reply.urls, depth - 1, st2)
  }

  /** The `for _, u := range urls` loop: crawls `urls` one after another. */
  function CrawlLinks(f: FakeFetcher, urls: seq<string>, depth: int, st: CrawlState): (r: CrawlState)
    ensures forall u :: u in urls ==> u in r.claimed
    ensures st.claimed <= r.claimed && st.fetched <= r.fetched
    decreases (if depth > 0 then depth else 0) + 1, 0, |urls|
  {
    if urls == [] then st
    else CrawlSpec(f, urls[|urls| - 1], depth, CrawlLinks(f, urls[..|urls| - 1], depth, st))
  }

  predicate NoDuplicates(s: seq<string>)
  {
    forall i, j :: 0 <= i < j < |s| ==> s[i] != s[j]
  }

  /** Every fetched URL has been claimed, and none was fetched twice. */
  predicate Consistent(st: CrawlState)
  {
    (forall u :: u in st.fetched ==> u in st.claimed) && NoDuplicates(st.fetched)
  }

  /**
   * `after` continues `before`: claims only grow, fetches are only
   * appended, and every URL fetched since was unclaimed in `before`.
   */
  predicate Extends(before: CrawlState, after: CrawlState)
  {
    && before.claimed <= after.claimed
    && before.fetched <= after.fetched
    && forall i :: |before.fetched| <= i < |after.fetched| ==> after.fetched[i] !in before.claimed
  }

  lemma ExtendsTransitive(a: CrawlState, b: CrawlState, c: CrawlState)
    requires Extends(a, b) && Extends(b, c)
    ensures Extends(a, c)
  {
    forall i | |a.fetched| <= i < |c.fetched|
      ensures c.fetched[i] !in a.claimed
    {
      if i < |b.fetched| {
        assert c.fetched[i] == b.fetched[i];
      }
    }
  }

  /**
   * After `Crawl(url, …)` the URL is claimed, even when `depth <= 0`; the
   * crawl only extends the state and keeps it consistent.  So a URL is
   * fetched only on a fresh claim, hence at most once.
   */
  lemma {:induction false} CrawlSound(f: FakeFetcher, url: string, depth: int, st: CrawlState)
    requires Consistent(st)
    ensures var r := CrawlSpec(f, url, depth, st);
            url in r.claimed && Extends(st, r) && Consistent(r)
    decreases if depth > 0 then depth else 0, 1, 0
  {
    var st1 := st.(claimed := st.claimed + {url});
    if depth <= 0 || url in st.claimed {
    } else {
      var reply := Fetch(f, url);
      var st2 := st1.(fetched := st1.fetched + [url]);
      assert Consistent(st2) by {
        assert forall i :: 0 <= i < |st.fetched| ==> st.fetched[i] in st.claimed;
      }
      assert Extends(st, st2);
      if reply.err == None {
        LinksSound(f, reply.urls, depth - 1, st2);
        ExtendsTransitive(st, st2, CrawlLinks(f, reply.urls, depth - 1, st2));
      }
    }
  }

  /** Crawling a list of links claims each of them and keeps the state consistent. */
  lemma {:induction false} LinksSound(f: FakeFetcher, urls: seq<string>, depth: int, st: CrawlState)
    requires Consistent(st)
    ensures var r := CrawlLinks(f, urls, depth, st);
            (forall u :: u in urls ==> u in r.claimed) && Extends(st, r) && Consistent(r)
    decreases (if depth > 0 then depth else 0) + 1, 0, |urls|
  {
    if urls != [] {
      var init := urls[..|urls| - 1];
      var mid := CrawlLinks(f, init, depth, st);
      LinksSound(f, init, depth, st);
      CrawlSound(f, urls[|urls| - 1], depth, mid);
      ExtendsTransitive(st, mid, CrawlSpec(f, urls[|urls| - 1], depth, mid));
      assert forall u :: u in urls ==> u in init || u == urls[|urls| - 1];
    }
  }

  /** A whole crawl from an empty `crawlUrl` fetches no URL twice. */
  lemma CrawlFetchesEachUrlOnce(f: FakeFetcher, url: string, depth: int)
    ensures NoDuplicates(CrawlSpec(f, url, depth, CrawlState({}, [])).fetched)
  {
    CrawlSound(f, url, depth, CrawlState({}, []));
  }

  /** With `depth <= 0`, or a URL already claimed, nothing is fetched. */
  lemma CrawlWithoutFetch(f: FakeFetcher, url: string, depth: int, st: CrawlState)
    requires depth <= 0 || url in st.claimed
    ensures CrawlSpec(f, url, depth, st) == CrawlState(st.claimed + {url}, st.fetched)
  {
  }

  /** A URL the fetcher does not know is fetched and claimed, and nothing else happens. */
  lemma CrawlStopsOnError(f: FakeFetcher, url: string, depth: int, st: CrawlState)
    requires depth > 0 && url !in st.claimed && url !in f
    ensures CrawlSpec(f, url, depth, st) == CrawlState(st.claimed + {url}, st.fetched + [url])
  {
  }

  // ---------------------------------------------------------------------
  // The populated fetcher of `main`

  const Home := "https://golang.org/"
  const Pkg := "https://golang.org/pkg/"
  const Cmd := "https://golang.org/cmd/"
  const Fmt := "https://golang.org/pkg/fmt/"
  const Os := "https://golang.org/pkg/os/"

  /** `fetcher`: four canned pages; "https://golang.org/cmd/" is linked but missing. */
  const Golang: FakeFetcher := map[
    Home := FakeResult("The Go Programming Language", [Pkg, Cmd]),
    Pkg := FakeResult("Packages", [Home, Cmd, Fmt, Os]),
    Fmt := FakeResult("Package fmt", [Home, Pkg]),
    Os := FakeResult("Package os", [Home, Pkg])
  ]

  /** The pages "fmt/" and "os/", reached from "pkg/" at depth 2, each link back only to claimed pages. */
  lemma GolangLeafPages()
    ensures CrawlSpec(Golang, Fmt, 2, CrawlState({Home, Pkg, Cmd}, [Home, Pkg, Cmd]))
         == CrawlState({Home, Pkg, Cmd, Fmt}, [Home, Pkg, Cmd, Fmt])
    ensures CrawlSpec(Golang, Os, 2, CrawlState({Home, Pkg, Cmd, Fmt}, [Home, Pkg, Cmd, Fmt]))
         == CrawlState({Home, Pkg, Cmd, Fmt, Os}, [Home, Pkg, Cmd, Fmt, Os])
  {
    var s3 := CrawlState({Home, Pkg, Cmd}, [Home, Pkg, Cmd]);
    var s4 := CrawlState({Home, Pkg, Cmd, Fmt}, [Home, Pkg, Cmd, Fmt]);
    var s5 := CrawlState({Home, Pkg, Cmd, Fmt, Os}, [Home, Pkg, Cmd, Fmt, Os]);
    assert [Home, Pkg][..1] == [Home];
    assert CrawlLinks(Golang, [Home], 1, s4) == s4;
    assert CrawlLinks(Golang, [Home, Pkg], 1, s4) == s4;
    assert Fmt !in s3.claimed && Golang[Fmt].urls == [Home, Pkg];
    assert CrawlState(s3.claimed + {Fmt}, s3.fetched + [Fmt]) == s4;
    assert CrawlLinks(Golang, [Home], 1, s5) == s5;
    assert CrawlLinks(Golang, [Home, Pkg], 1, s5) == s5;
    assert Os !in s4.claimed && Golang[Os].urls == [Home, Pkg];
    assert CrawlState(s4.claimed + {Os}, s4.fetched + [Os]) == s5;
  }

  /** The page "pkg/", reached from the root at depth 3. */
  lemma GolangPkgPage()
    ensures CrawlSpec(Golang, Pkg, 3, CrawlState({Home}, [Home]))
         == CrawlState({Home, Pkg, Cmd, Fmt, Os}, [Home, Pkg, Cmd, Fmt, Os])
  {
    var s1 := CrawlState({Home}, [Home]);
    var s2 := CrawlState({Home, Pkg}, [Home, Pkg]);
    var s3 := CrawlState({Home, Pkg, Cmd}, [Home, Pkg, Cmd]);
    var s4 := CrawlState({Home, Pkg, Cmd, Fmt}, [Home, Pkg, Cmd, Fmt]);
    var s5 := CrawlState({Home, Pkg, Cmd, Fmt, Os}, [Home, Pkg, Cmd, Fmt, Os]);
    GolangLeafPages();
    var links := [Home, Cmd, Fmt, Os];
    assert links[..3] == [Home, Cmd, Fmt] && links[..3][..2] == [Home, Cmd] && links[..3][..2][..1] == [Home];
    assert CrawlLinks(Golang, [Home], 2, s2) == s2;
    assert Cmd !in s2.claimed && Cmd !in Golang;
    assert CrawlState(s2.claimed + {Cmd}, s2.fetched + [Cmd]) == s3;
    assert CrawlLinks(Golang, [Home, Cmd], 2, s2) == s3;
    assert CrawlLinks(Golang, [Home, Cmd, Fmt], 2, s2) == s4;
    assert CrawlLinks(Golang, links, 2, s2) == s5;
    assert Pkg !in s1.claimed && Golang[Pkg].urls == links;
    assert CrawlState(s1.claimed + {Pkg}, s1.fetched + [Pkg]) == s2;
  }

  /**
   * `Crawl("https://golang.org/", 4, fetcher, …)` run in slice order: each
   * of the four pages is fetched once, and so is the missing
   * "https://golang.org/cmd/", whose fetch fails.
   */
  lemma GolangCrawl()
    ensures CrawlSpec(Golang, Home, 4, CrawlState({}, []))
         == CrawlState({Home, Pkg, Cmd, Fmt, Os}, [Home, Pkg, Cmd, Fmt, Os])
  {
    var s0 := CrawlState({}, []);
    var s1 := CrawlState({Home}, [Home]);
    var s5 := CrawlState({Home, Pkg, Cmd, Fmt, Os}, [Home, Pkg, Cmd, Fmt, Os]);
    GolangPkgPage();
    assert [Pkg, Cmd][..1] == [Pkg];
    assert CrawlLinks(Golang, [Pkg], 3, s1) == s5;
    assert CrawlLinks(Golang, [Pkg, Cmd], 3, s1) == s5;
    assert Golang[Home].urls == [Pkg, Cmd];
    assert CrawlState(s0.claimed + {Home}, s0.fetched + [Home]) == s1;
  }

  /**
   * The claim comes before the depth test.  With links a -> [b, c] and
   * b -> [c], `Crawl("a", 2, …)` reaches "c" first through "b" at depth 0,
   * claims it without fetching, and later skips it as the direct link of
   * "a" at depth 1: a link one hop from the start is never fetched.
   */
  lemma ClaimAtDepthZeroBlocksFetch()
    ensures var f := map["a" := FakeResult("A", ["b", "c"]), "b" := FakeResult("B", ["c"])];
            CrawlSpec(f, "a", 2, CrawlState({}, [])) == CrawlState({"a", "b", "c"}, ["a", "b"])
  {
    var f := map["a" := FakeResult("A", ["b", "c"]), "b" := FakeResult("B", ["c"])];
    var s1 := CrawlState({"a"}, ["a"]);
    var s2 := CrawlState({"a", "b"}, ["a", "b"]);
    var s3 := CrawlState({"a", "b", "c"}, ["a", "b"]);
    assert CrawlState({} + {"a"}, [] + ["a"]) == s1;
    assert CrawlState(s1.claimed + {"b"}, s1.fetched + ["b"]) == s2;
    assert CrawlLinks(f, ["c"], 0, s2) == s3;
    assert CrawlSpec(f, "b", 1, s1) == s3;
    assert ["b", "c"][..1] == ["b"];
    assert CrawlLinks(f, ["b"], 1, s1) == s3;
    assert CrawlSpec(f, "c", 1, s3) == s3;
  }

  // ---------------------------------------------------------------------
  // Crawl, as the source runs it

  /**
   * The package-level state `Crawl` works on: the `crawlUrl` map, the
   * counter of the `sync.WaitGroup` it is given, and (ghost) the URLs
   * passed to `Fetch` so far.
   */
  class Crawler {
    var crawlUrl: map<string, bool>
    var pending: int
    ghost var fetched: seq<string>

    /** `Crawl` only ever stores `true`, so presence is all that matters. */
    ghost predicate Valid()
      reads this
    {
      forall u :: u in crawlUrl ==> crawlUrl[u]
    }

    ghost function State(): CrawlState
      reads this
    {
      CrawlState(crawlUrl.Keys, fetched)
    }

    /** `crawlUrl = map[string]bool{}` and a fresh `sync.WaitGroup`. */
    constructor ()
      ensures Valid()
      ensures crawlUrl == map[] && pending == 0 && fetched == []
    {
      crawlUrl := map[];
      pending := 0;
      fetched := [];
    }

    /**
     * `Crawl(url, depth, fetcher, wg)`.  The caller has already done
     * `wg.Add(1)`; the deferred `wg.Done()` runs on every return path, and
     * each child is preceded by its own `wg.Add(1)`, so the counter drops
     * by exactly one.  Children run to completion in slice order.
     */
    method Crawl(url: string, depth: int, fetcher: FakeFetcher)
      requires Valid() && pending >= 1
      modifies this
      ensures Valid()
      ensures State() == CrawlSpec(fetcher, url, depth, old(State()))
      ensures pending == old(pending) - 1
      decreases if depth > 0 then depth else 0
    {
      var ok := url in crawlUrl;
      if !ok {
        crawlUrl := crawlUrl[url := true];
      }
      assert crawlUrl.Keys == old(crawlUrl).Keys + {url};
      if depth <= 0 || ok {
        pending := pending - 1;
        return;
      }
      var reply := Fetch(fetcher, url);
      fetched := fetched + [url];
      if reply.err != None {
        pending := pending - 1;
        return;
      }
      ghost var st := State();
      var i := 0;
      while i < |reply.urls|
        invariant 0 <= i <= |reply.urls|
        invariant State() == CrawlLinks(fetcher, reply.urls[..i], depth - 1, st)
        invariant pending == old(pending)
        invariant Valid()
      {
        pending := pending + 1;
        Crawl(reply.urls[i], depth - 1, fetcher);
        assert reply.urls[..i + 1][..i] == reply.urls[..i];
        i := i + 1;
      }
      assert reply.urls[..i] == reply.urls;
      pending := pending - 1;
    }
  }

  /**
   * The driver in `main`: `wg.Add(1)`, `Crawl(url, depth, fetcher, &wg)`,
   * `wg.Wait()`, starting from an empty `crawlUrl`.  The wait returns
   * because the counter is back to zero, and `crawlUrl` then holds exactly
   * the URLs the crawl claimed.
   */
  method CrawlAndWait(url: string, depth: int, fetcher: FakeFetcher) returns (crawlUrl: map<string, bool>, waitReturns: bool)
    ensures waitReturns
    ensures forall u :: u in crawlUrl ==> crawlUrl[u]
    ensures crawlUrl.Keys == CrawlSpec(fetcher, url, depth, CrawlState({}, [])).claimed
    ensures url in crawlUrl
  {
    var c := new Crawler();
    c.pending := c.pending + 1;
    assert c.State() == CrawlState({}, []);
    c.Crawl(url, depth, fetcher);
    waitReturns := c.pending == 0;
    crawlUrl := c.crawlUrl;
    CrawlSound(fetcher, url, depth, CrawlState({}, []));
  }
}
