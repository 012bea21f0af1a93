/**
 The entry point: `main` checks its command line and, for an acceptable
 seed, builds a crawler and runs it to completion.
 */
module Cli {
  import opened Url
  import opened LinkGraph
  import opened Crawl

  /** What `main` does with its command line. */
  datatype Action = Usage | NotValidUrl | CrawlSeed(seed: string)

  /**
   `main`'s checks on the full argument list (program name first): any count
   other than two prints the usage and returns Ok; a seed that does not start
   with "http" prints an error and returns Ok; any other seed is crawled.
   */
  function Decide(args: seq<string>): (a: Action)
    ensures a == Usage <==> |args| != 2
    ensures a.CrawlSeed? <==> |args| == 2 && StartsWith(args[1], "http")
    ensures a.CrawlSeed? ==> a.seed == args[1]
  {
    if |args| != 2 then Usage
    else if StartsWith(args[1], "http") then CrawlSeed(args[1])
    else NotValidUrl
  }

  /**
   The seed check is a plain, case-sensitive prefix test: `httpx` passes,
   while `ftp://a.com` and `HTTP://a.com` are refused, and a missing seed
   only prints the usage.
   */
  lemma DecideExamples()
    ensures Decide(["crawler", "httpx"]) == CrawlSeed("httpx")
    ensures Decide(["crawler", "https://a.com"]) == CrawlSeed("https://a.com")
    ensures Decide(["crawler", "ftp://a.com"]) == NotValidUrl
    ensures Decide(["crawler", "HTTP://a.com"]) == NotValidUrl
    ensures Decide(["crawler"]) == Usage
    ensures Decide(["crawler", "http://a.com", "extra"]) == Usage
  {
    assert "httpx"[..4] == "http";
    assert "https://a.com"[..4] == "http";
    assert "ftp://a.com"[0] == 'f';
    assert "HTTP://a.com"[0] == 'H';
  }

  /**
   `main`: decide, and for an accepted seed create a crawler and crawl it;
   `found` is the crawler's `found_urls` afterwards (empty when nothing was
   crawled). The crawl ends only when the URLs reachable from the seed lie in
   some finite closed `universe`; the seed must parse to be fetched.
   */
  method Run(web: Web, args: seq<string>, ghost universe: set<string>) returns (a: Action, found: set<string>)
    requires Decide(args).CrawlSeed? ==>
      && web.parse(args[1]).Some?
      && args[1] in universe
      && Closed(LinksFrom(web, args[1]), universe)
    ensures a == Decide(args)
    ensures a.CrawlSeed? ==> LeastClosed(LinksFrom(web, a.seed), a.seed, found)
    ensures !a.CrawlSeed? ==> found == {}
  {
    a := Decide(args);
    found := {};
    if a.CrawlSeed? {
      var crawler := new Crawler(web);
      ghost var fetched, rounds := crawler.Crawl(a.seed, universe);
      found := crawler.foundUrls;
    }
  }
}
