/**
 A small site crawled end to end. The seed `http://a.com` links to `/b`
 and `http://a.com/c`; page `/b` links back to `http://a.com` and to `/d`;
 the other pages have no links. Root-relative links are resolved against
 the seed's serialization `http://a.com/`, so the crawler stores `//b` and
 `//d` forms, and the link back to the bare host is dropped by the
 extension filter (its file name is `a.com`).
 */
module Scenario {
  import opened Url
  import opened LinkGraph
  import opened Crawl

  const Seed := "http://a.com"
  const PageB := "http://a.com//b"
  const PageC := "http://a.com/c"
  const PageD := "http://a.com//d"

  /** `Url::parse` on the seed and the absolute hrefs of the site; every other string fails, including the `//` forms, which are never parsed. */
  function SiteParse(s: string): Option<ParsedUrl>
  {
    if s == Seed then Some(ParsedUrl(Some("a.com"), "http://a.com/"))
    else if s == PageC then Some(ParsedUrl(Some("a.com"), PageC))
    else None
  }

  /** The raw hrefs of each page (the page body is taken to be its URL). */
  function SiteHrefs(body: string): seq<string>
  {
    if body == Seed then ["/b", PageC]
    else if body == PageB then [Seed, "/d"]
    else []
  }

  function Site(): Web
  {
    Web(SiteParse, body => body, SiteHrefs)
  }

  /** The extension filter passes `/b`, `/d` and `http://a.com/c`, and drops the bare host. */
  lemma NoExtensions()
    ensures !HasExtension("/b") && !HasExtension("/d") && !HasExtension(PageC)
    ensures HasExtension(Seed)
  {
    assert "/b" == "/" + "b";
    ExtensionOfLastComponent("/", "b");
    assert "/d" == "/" + "d";
    ExtensionOfLastComponent("/", "d");
    assert PageC == "http://a.com/" + "c";
    ExtensionOfLastComponent("http://a.com/", "c");
    DotFileAndHostExamples();
  }

  lemma NormalizeSiteLinks()
    ensures NormalizeUrl(SiteParse, "/b", Seed) == Some(PageB)
    ensures NormalizeUrl(SiteParse, "/d", Seed) == Some(PageD)
    ensures NormalizeUrl(SiteParse, PageC, Seed) == Some(PageC)
  {
    assert "/b"[..1] == "/" && SiteParse("/b") == None;
    assert "http://a.com/" + "/b" == PageB;
    assert "/d"[..1] == "/" && SiteParse("/d") == None;
    assert "http://a.com/" + "/d" == PageD;
  }

  /** The seed's page yields `/b` in its `//` form and `http://a.com/c` as written. */
  lemma LinksOfSeed()
    ensures LinksFrom(Site(), Seed)(Seed) == {PageB, PageC}
  {
    NoExtensions();
    NormalizeSiteLinks();
    var hs := ["/b", PageC];
    assert hs[1..] == [PageC] && [PageC][1..] == [];
    assert GetLinks(SiteParse, [PageC], Seed) == {PageC};
    assert GetLinks(SiteParse, hs, Seed) == {PageB, PageC};
    assert SiteHrefs(Seed) == hs;
  }

  /** Page `/b` yields only `/d`: its link back to the bare host does not pass the filter. */
  lemma LinksOfB()
    ensures LinksFrom(Site(), Seed)(PageB) == {PageD}
  {
    NoExtensions();
    NormalizeSiteLinks();
    var hs := [Seed, "/d"];
    assert hs[1..] == ["/d"] && ["/d"][1..] == [];
    assert GetLinks(SiteParse, ["/d"], Seed) == {PageD};
    assert GetLinks(SiteParse, hs, Seed) == {PageD};
    assert SiteHrefs(PageB) == hs;
  }

  /** Pages `/c` and `/d` have no links. */
  lemma LinksOfLeaves()
    ensures LinksFrom(Site(), Seed)(PageC) == {}
    ensures LinksFrom(Site(), Seed)(PageD) == {}
  {
    assert PageC != Seed && PageC != PageB;
    assert PageD != Seed && PageD != PageB;
  }

  /** The shape of the site's link graph decides the result, whatever the link relation is built from. */
  lemma SiteShapeIsLeastClosed(links: LinkRelation)
    requires links(Seed) == {PageB, PageC} && links(PageB) == {PageD}
    requires links(PageC) == {} && links(PageD) == {}
    ensures LeastClosed(links, Seed, {Seed, PageB, PageC, PageD})
  {
    var s := {Seed, PageB, PageC, PageD};
    assert Closed(links, s);
    forall t | Seed in t && Closed(links, t)
      ensures s <= t
    {
      assert PageB in links(Seed) && PageC in links(Seed);
      assert PageD in links(PageB);
    }
  }

  /** The four pages, with the root-relative ones in their `//` form, are the least closed set holding the seed. */
  lemma SiteIsLeastClosed()
    ensures LeastClosed(LinksFrom(Site(), Seed), Seed, {Seed, PageB, PageC, PageD})
  {
    LinksOfSeed();
    LinksOfB();
    LinksOfLeaves();
    SiteShapeIsLeastClosed(LinksFrom(Site(), Seed));
  }

  /**
   In any link graph of the site's shape, the breadth-first crawl has
   frontier `{/b, /c}` after the seed fetch, `{/d}` after one round, and
   nothing after two.
   */
  lemma SiteShapeRounds(links: LinkRelation)
    requires links(Seed) == {PageB, PageC} && links(PageB) == {PageD}
    requires links(PageC) == {} && links(PageD) == {}
    ensures RoundAfter(links, Seed, 0).frontier == {PageB, PageC}
    ensures RoundAfter(links, Seed, 1).frontier == {PageD}
    ensures RoundAfter(links, Seed, 2).frontier == {}
  {
    ImageAddPage(links, {}, PageB);
    ImageAddPage(links, {PageB}, PageC);
    assert {PageB} + {PageC} == {PageB, PageC};
    assert RoundAfter(links, Seed, 1) == Round({Seed, PageB, PageC}, {PageD});
    ImageAddPage(links, {}, PageD);
    assert {} + {PageD} == {PageD};
  }

  /**
   In a link graph of the site's shape, a crawl that stops with the least
   closed set holding the seed has stored the four pages and run two rounds
   of the loop: it is the first round whose frontier is empty.
   */
  lemma SiteShapeCrawl(links: LinkRelation, found: set<string>, n: nat)
    requires links(Seed) == {PageB, PageC} && links(PageB) == {PageD}
    requires links(PageC) == {} && links(PageD) == {}
    requires LeastClosed(links, Seed, found)
    requires RoundAfter(links, Seed, n).frontier == {} && RanRounds(links, Seed, n)
    ensures found == {Seed, PageB, PageC, PageD}
    ensures n == 2
  {
    SiteShapeIsLeastClosed(links);
    LeastClosedUnique(links, Seed, found, {Seed, PageB, PageC, PageD});
    SiteShapeRounds(links);
    assert PageB in RoundAfter(links, Seed, 0).frontier && PageD in RoundAfter(links, Seed, 1).frontier;
  }

  /**
   Crawling the site from its seed stores exactly the four pages, after the
   seed fetch and two rounds of the loop.
   */
  method CrawlSite() returns (found: set<string>, ghost rounds: nat)
    ensures found == {Seed, PageB, PageC, PageD}
    ensures rounds == 2
  {
    var s := {Seed, PageB, PageC, PageD};
    SiteIsLeastClosed();
    var crawler := new Crawler(Site());
    ghost var fetched;
    fetched, rounds := crawler.Crawl(Seed, s);
    found := crawler.foundUrls;
    LinksOfSeed();
    LinksOfB();
    LinksOfLeaves();
    SiteShapeCrawl(LinksFrom(Site(), Seed), found, rounds);
  }
}
