/**
 The crawl engine: the breadth-first frontier loop of `Crawler::crawl`.

 Fetching a page and extracting its anchors are capabilities of a `Web`
 value. The links followed from a page are `get_links` applied to its raw
 hrefs, always against the seed; together they form the link relation the
 loop explores, and the loop is proved to store the least set that holds the
 seed and is closed under it (module `LinkGraph`).
 */
module Crawl {
  import opened Url
  import opened LinkGraph

  /**
   What the crawler uses but does not implement: `Url::parse`, `fetch_html`
   (URL to page body, total here) and the anchor extraction of the HTML
   parser (page body to the raw `href` values in document order).
   */
  datatype Web = Web(parse: Parser, fetch: string -> string, hrefs: string -> seq<string>)

  /**
   The link relation of a crawl from `seed`: page `u` links to
   `get_links(fetch_html(u))` with `given_url` set to `seed`. Every link it
   yields is on the seed's site. `LinksFrom` is used only with a seed that
   parses; for any other seed it is empty.
   */
  function LinksFrom(web: Web, seed: string): LinkRelation
  {
    u => if web.parse(seed).Some? then GetLinks(web.parse, web.hrefs(web.fetch(u)), seed) else {}
  }

  /** No page leads off the seed's site: every link `LinksFrom` yields is on it. */
  lemma LinksFromOnSite(web: Web, seed: string)
    ensures forall u, v :: v in LinksFrom(web, seed)(u) ==> OnSeedSite(web.parse, seed, v)
  {
    if web.parse(seed).Some? {
      GetLinksOnSite(web.parse, seed);
    }
  }

  /** Every URL a complete crawl stores, other than the seed, is on the seed's site. */
  lemma FoundStayOnSite(web: Web, seed: string, s: set<string>)
    requires LeastClosed(LinksFrom(web, seed), seed, s)
    ensures forall v :: v in s && v != seed ==> OnSeedSite(web.parse, seed, v)
  {
    var links := LinksFrom(web, seed);
    LeastClosedHasNoStrays(links, seed, s);
    LinksFromOnSite(web, seed);
    forall v | v in s && v != seed
      ensures OnSeedSite(web.parse, seed, v)
    {
      var u :| u in s && v in links(u);
    }
  }

  predicate NoDuplicates(s: seq<string>)
  {
    forall i, j :: 0 <= i < j < |s| ==> s[i] != s[j]
  }

  /** `s` lists the URLs of `pages`, each exactly once. */
  ghost predicate Enumerates(s: seq<string>, pages: set<string>)
  {
    NoDuplicates(s) && forall u :: u in s <==> u in pages
  }

  // ---------------------------------------------------------------------------
  // The frontier loop, and one round of it: the parallel map and reduce
  // ---------------------------------------------------------------------------

  /**
   `new_urls.par_iter().map(fetch and get_links).reduce(union)`, with
   `links` standing for the map step: the union of
   the links of every frontier page, each page fetched once. The reduce is an
   associative and commutative union, so a sequential loop in any order gives
   the same set; `order` is the (unspecified) order of the fetches.
   */
  method LinksOfFrontier(links: LinkRelation, frontier: set<string>)
    returns (found: set<string>, ghost order: seq<string>)
    ensures found == Image(links, frontier)
    ensures Enumerates(order, frontier)
  {
    found, order := {}, [];
    var rest := frontier;
    while rest != {}
      invariant rest <= frontier
      invariant found == Image(links, frontier - rest)
      invariant NoDuplicates(order)
      invariant forall u :: u in order <==> u in frontier - rest
      decreases rest
    {
      var u :| u in rest;
      var pageLinks := links(u);
      ImageAddPage(links, frontier - rest, u);
      assert (frontier - rest) + {u} == frontier - (rest - {u});
      found := found + pageLinks;
      order := order + [u];
      rest := rest - {u};
    }
  }

  /**
   The body of `crawl` over the link relation `links`: fetch the seed, then
   visit the frontier round by round until no unvisited link is left, and
   return the visited set. After `rounds` rounds the state is exactly
   `RoundAfter(links, seed, rounds)`, and the loop stops at the first round
   whose frontier is empty.
   */
  method Explore(links: LinkRelation, seed: string, ghost universe: set<string>)
    returns (visited: set<string>, ghost fetched: seq<string>, ghost rounds: nat)
    requires seed in universe && Closed(links, universe)
    ensures LeastClosed(links, seed, visited) && visited <= universe
    ensures |fetched| > 0 && fetched[0] == seed
    ensures Enumerates(fetched, visited)
    ensures visited == RoundAfter(links, seed, rounds).visited
    ensures RoundAfter(links, seed, rounds).frontier == {}
    ensures RanRounds(links, seed, rounds)
  {
    visited := {seed};
    var found := links(seed);
    fetched := [seed];
    var newUrls := found - visited;
    rounds := 0;
    assert RoundAfter(links, seed, 0) == Round(visited, newUrls);
    while newUrls != {}
      invariant |fetched| > 0 && fetched[0] == seed
      invariant Enumerates(fetched, visited)
      invariant Round(visited, newUrls) == RoundAfter(links, seed, rounds)
      invariant RanRounds(links, seed, rounds)
      decreases universe - visited
    {
      ghost var order;
      found, order := LinksOfFrontier(links, newUrls);
      RoundAdvance(links, seed, rounds, visited, newUrls, universe);
      EnumeratesAppend(fetched, order, visited, newUrls);
      fetched := fetched + order;
      visited := visited + newUrls;
      newUrls := found - visited;
      rounds := rounds + 1;
    }
    ExhaustedRoundIsLeastClosed(links, seed, rounds);
  }

  // ---------------------------------------------------------------------------
  // The crawler
  // ---------------------------------------------------------------------------

  class Crawler {
    /** The HTTP client and HTML parser the crawler fetches and extracts with. */
    const client: Web
    var givenUrl: string
    var foundUrls: set<string>

    /** `Crawler::new`: an empty seed and no URLs found yet. */
    constructor (client: Web)
      ensures this.client == client && givenUrl == "" && foundUrls == {}
    {
      this.client := client;
      givenUrl := "";
      foundUrls := {};
    }

    /**
     `crawl(url)`: set `given_url`, run the frontier loop (`Explore`) over
     the links `get_links` yields against that seed, and store the visited
     set in `found_urls`.

     `universe` is a closed set of URLs holding the seed: `crawl` loops only
     as long as new URLs appear, so it ends when the link graph reachable
     from the seed is finite. The seed must parse for it to be fetched at all.
     `fetched` lists the fetches in order; `rounds` counts the loop's rounds,
     each of which matches one round of the breadth-first `RoundAfter`.
     */
    method Crawl(url: string, ghost universe: set<string>) returns (ghost fetched: seq<string>, ghost rounds: nat)
      requires client.parse(url).Some?
      requires url in universe && Closed(LinksFrom(client, url), universe)
      modifies this
      ensures givenUrl == url
      ensures LeastClosed(LinksFrom(client, url), url, foundUrls)
      ensures foundUrls <= universe
      ensures |fetched| > 0 && fetched[0] == url
      ensures Enumerates(fetched, foundUrls)
      ensures foundUrls == RoundAfter(LinksFrom(client, url), url, rounds).visited
      ensures RoundAfter(LinksFrom(client, url), url, rounds).frontier == {}
      ensures RanRounds(LinksFrom(client, url), url, rounds)
    {
      givenUrl := url;
      var visited;
      visited, fetched, rounds := Explore(LinksFrom(client, givenUrl), url, universe);
      foundUrls := visited;
    }
  }

  /**
   Appending a round's fetches to the fetch log: when the two lists enumerate
   disjoint sets, their concatenation enumerates the union.
   */
  lemma EnumeratesAppend(a: seq<string>, b: seq<string>, pa: set<string>, pb: set<string>)
    requires Enumerates(a, pa) && Enumerates(b, pb) && pa !! pb
    ensures Enumerates(a + b, pa + pb)
  {
    forall i, j | 0 <= i < j < |a + b|
      ensures (a + b)[i] != (a + b)[j]
    {
      if j >= |a| && i < |a| {
        assert (a + b)[i] in a && (a + b)[j] in b;
      }
    }
  }
}
