# Single-host breadth-first crawler, modelled in Dafny

This project models the crawl engine of a small command-line web crawler. The
crawler takes one seed URL. It fetches the seed and follows anchor links round
by round, staying on the seed's host. It fetches every page exactly once and
records the set of URLs it discovered.

The model has four modules, one per concern of `src/main.rs`, and one
worked example:

- `Url` (`url.dfy`) covers link scoping: `normalize_url`, `get_links`, and the
  `Path::extension` filter applied to raw hrefs. `Url::parse` is a parameter
  of type `Parser`. The crawler reads only the host and the serialized form of
  a parsed URL. `Path::extension` is modelled concretely, with Unix path
  semantics.
- `LinkGraph` (`graph.dfy`) holds the specification of a crawl. A crawl's
  result is the least set of URLs that holds the seed and is closed under the
  link relation. That set equals the set of URLs reachable from the seed. The
  module also defines the crawl round by round (`RoundAfter`). After `k`
  rounds the visited set is exactly the URLs within `k` links of the seed.
- `Crawl` (`crawl.dfy`) holds the `Crawler` class, with its `client`,
  `given_url` and `found_urls` fields. It also holds the body of `crawl` over
  the link relation (`Explore`: the seed fetch and the frontier loop), and the
  parallel map/reduce of one round, as a sequential union.
- `Cli` (`cli.dfy`) models the argument count and seed checks of `main`, and a
  run that crawls an accepted seed.
- `Scenario` (`scenario.dfy`) crawls a four-page site end to end. The seed
  `http://a.com` links to `/b` and `http://a.com/c`. Page `/b` links back to
  `http://a.com` and on to `/d`. The crawler stores exactly `http://a.com`,
  `http://a.com//b`, `http://a.com/c` and `http://a.com//d`.

A few behaviours of the code are worth stating:

- A root-relative href is resolved as the seed's serialized URL followed by
  the href. For the seed `http://a.com`, `/about` becomes
  `http://a.com//about`, not `http://a.com/about`.
- The base for every page is the seed (`given_url`), never the page the link
  was found on.
- The seed is checked only for the literal prefix `http`, so `httpx` is
  accepted.
- The extension filter sees an absolute href as a file path. So `http://a.com`
  (file name `a.com`, extension `com`) is dropped before normalization.
- The extension filter looks at the raw href, not at the URL it becomes. The
  href `/` has no extension, yet on seed `http://a.com` it becomes
  `http://a.com//`, whose file name `a.com` has one; that URL is still
  followed. What is guaranteed is scope: every URL stored other than the seed
  either parses with the seed's host or is the seed's serialization followed
  by a relative href that starts with `/`.
- A failed fetch panics in the code. It is not treated as a page with no
  links.

## Model

| member | source | states |
|---|---|---|
| `Url.LastSlash` | src/main.rs:101 | the index of the last '/' in the path, or -1: the character there is '/' and none follows it |
| `Url.LastSlashUnique` | src/main.rs:101 | an index holding '/' with no '/' after it (or -1 when the path has none) is the one `LastSlash` returns |
| `Url.AfterLastSlash` | src/main.rs:101 | the result is the longest slash-free suffix of the path: a suffix with no '/', preceded by '/' whenever it is not the whole path |
| `Url.FileName` | src/main.rs:101 | `Path::file_name`, when present, is a normal component: non-empty, not `.` or `..`, with no separator |
| `Url.FileNameIsComponent` | src/main.rs:101 | the file name, when present, is one of the path's components: it stands in the path at the start of the path or right after a '/' |
| `Url.HasExtension` | src/main.rs:101 | `Path::new(href).extension().is_some()`: the href has a file name holding a '.' after its first character (no contract; its properties are the lemmas below) |
| `Url.ExtensionNeedsInnerDot` | src/main.rs:101 | an href with an extension holds a '.' that does not begin a path component, so `/.hidden` and `.` have none |
| `Url.AfterLastSlashUnique` | src/main.rs:101 | the slash-free suffix preceded by '/' (or the whole path) is unique, so it is what `AfterLastSlash` returns |
| `Url.AfterLastSlashOfComponent` | src/main.rs:101 | the text after the last '/' of a directory part followed by a slash-free name is that name |
| `Url.FileNameOfComponent` | src/main.rs:101 | a path that ends in a normal component has that component as its file name |
| `Url.FileNameIgnoresTrailing` | src/main.rs:101 | a trailing `/` or `/.` does not change the file name |
| `Url.SeparatorsOnly` | src/main.rs:101 | a path made only of '/' characters (the root) has no file name |
| `Url.TrailingSlashKeepsExtension` | src/main.rs:101 | a trailing '/' does not change whether an href has an extension |
| `Url.ExtensionOfLastComponent` | src/main.rs:101 | an href that ends in a normal component (not empty, not `.` or `..`) has an extension exactly when that component holds a '.' after its first character |
| `Url.ParentHasNoExtension` | src/main.rs:101 | an href whose last component is `..` (`..`, `/docs/..`) has no file name and so no extension, although `..` holds a '.' after its first character: the filter lets it through |
| `Url.BareHostHasExtension` | src/main.rs:101 | an absolute href with no path and a dotted host (`http://a.com`) has an extension, so the filter drops it |
| `Url.ExtensionExamples` | src/main.rs:101 | `/doc.pdf` has an extension; `/about` and `/about/` do not |
| `Url.DotFileAndHostExamples` | src/main.rs:101 | `/.hidden` has no extension; `http://a.com` has one |
| `Url.NormalizeUrl` | src/main.rs:106-123 | a kept href is either the href itself or the seed's serialization followed by the href; nothing else is produced |
| `Url.NormalizeAbsolute` | src/main.rs:108-115 | an href that parses is kept exactly when it has a host equal to the seed's host, and then verbatim, with no canonicalization |
| `Url.NormalizeRelative` | src/main.rs:97-122 | an href that fails to parse is kept exactly when it starts with '/', and then becomes the seed's serialization followed by the href |
| `Url.NormalizeExamples` | src/main.rs:106-123 | with seed `http://a.com`: `/about` gives `http://a.com//about`; cross-host, host-less and `./page` hrefs are dropped; `http://a.com/c` is kept |
| `Url.SlashHrefBecomesExtension` | src/main.rs:101-102 | the href `/` passes the filter and becomes `http://a.com//`, a URL that itself has an extension: the filter sees the href, not the result |
| `Url.LinkOf` | src/main.rs:101-102 | one href contributes a link exactly when it has no extension and either parses with the seed's host or does not parse and starts with '/'; the link is the href itself in the first case and the seed's serialization followed by the href in the second |
| `Url.GetLinks` | src/main.rs:96-104 | a URL is in the result exactly when some raw href contributes it, where an href with an extension contributes nothing and any other contributes its normalized form; there are at most as many links as hrefs |
| `Url.GetLinksMembership` | src/main.rs:96-104 | a URL is a link of the page exactly when some raw href with no extension normalizes to it against the seed |
| `Url.GetLinksAppend` | src/main.rs:98-103 | the links of a concatenation of href lists are the union of their links, so order and duplicates do not matter |
| `Url.ExtensionFilteredFirst` | src/main.rs:101-102 | an href with an extension adds nothing, even one that normalization would accept |
| `Url.GetLinksOnSite` | src/main.rs:96-123 | every link of every page is on the seed's site: it parses with the seed's host, or it is the seed's serialization followed by a '/'-href that does not parse |
| `LinkGraph.ImageAddPage` | src/main.rs:53-64 | the links of a set of pages plus one page are the old links plus that page's links |
| `LinkGraph.ImageUnion` | src/main.rs:53-64 | the links of a union of page sets are the union of their links |
| `LinkGraph.ClosedWhenImageInside` | src/main.rs:52 | a set that contains the links of all its pages is closed under the link relation |
| `LinkGraph.RoundAfter` | src/main.rs:38-74 | the crawl's state after `k` rounds: the seed fetch gives the seed as visited and its other links as the frontier; each round adds the frontier to the visited set and keeps the unvisited links found on it (no contract; its properties are the lemmas below) |
| `LinkGraph.RoundAfterStep` | src/main.rs:52-74 | the step equation of `RoundAfter` at `k + 1`, unfolded as a lemma for `LinkGraph.RoundAdvance` to use: one more round visits the frontier and makes the unvisited links of the frontier pages the next frontier |
| `LinkGraph.FirstLayer` | src/main.rs:38-50 | after the seed fetch the visited set is the seed alone and the frontier is the URLs first reached in one link |
| `LinkGraph.LayerStep` | src/main.rs:65-71 | visiting the newest layer and taking its unvisited links gives exactly the next layer |
| `LinkGraph.RoundsAreLayers` | src/main.rs:38-74 | the crawl is breadth-first: after `k` rounds the visited set is exactly the URLs within `k` links of the seed, and the frontier exactly the URLs first reached in `k + 1` links |
| `LinkGraph.BallHasPath` | src/main.rs:38-74 | every URL within `k` rounds of the seed ends a link path of at most `k` links |
| `LinkGraph.ExtendPath` | src/main.rs:52-74 | a link path followed by a link of its last page is a link path |
| `LinkGraph.PathInBall` | src/main.rs:38-74 | the end of a link path of at most `k` links is within `k` rounds of the seed |
| `LinkGraph.BallGrows` | src/main.rs:65 | the visited layers only grow: the URLs within `j` links are among those within `k` links when `j <= k` |
| `LinkGraph.BallIsWithinSteps` | src/main.rs:38-74 | a URL is within `k` rounds of the seed exactly when a link path of at most `k` links leads to it from the seed |
| `LinkGraph.BallInClosed` | src/main.rs:34-81 | every URL within `k` links of the seed lies in every closed set that holds the seed |
| `LinkGraph.RoundInClosed` | src/main.rs:52-74 | what any round has visited or queued lies in every closed set that holds the seed: the crawl takes in nothing it need not reach |
| `LinkGraph.RoundAdvance` | src/main.rs:52-74 | one round of the loop from a non-empty frontier: the new visited set and frontier are those of the next round, the visited set and frontier are disjoint, the loop has run one more round, and the unvisited part of any closed set holding the seed shrinks |
| `LinkGraph.ExhaustedRoundIsLeastClosed` | src/main.rs:52-77 | when the frontier after some round is empty, the visited set is the least closed set that holds the seed |
| `LinkGraph.LeastClosedHasNoStrays` | src/main.rs:52-77 | every member of the crawl's result other than the seed is a link of some member |
| `LinkGraph.LeastClosedUnique` | src/main.rs:34-81 | there is only one least closed set that holds the seed, so the crawl's result is determined by the link graph |
| `LinkGraph.PathInClosed` | src/main.rs:34-81 | every URL on a link path from the seed lies in every closed set that holds the seed |
| `LinkGraph.LeastClosedIsReachable` | src/main.rs:34-81 | the least closed set that holds the seed contains exactly the URLs reachable from the seed |
| `Crawl.LinksFrom` | src/main.rs:44-57 | the link relation the loop explores: a page links to `get_links` of its fetched body, always against the seed (no contract; its property is `Crawl.LinksFromOnSite`) |
| `Crawl.LinksFromOnSite` | src/main.rs:44-57 | no page leads off the seed's site: every link the relation yields parses with the seed's host or is the seed's serialization followed by a '/'-href |
| `Crawl.FoundStayOnSite` | src/main.rs:34-81 | every URL a complete crawl stores, other than the seed, is on the seed's site |
| `Crawl.LinksOfFrontier` | src/main.rs:53-64 | the parallel map/reduce of a round yields the union of the links of all frontier pages, and fetches each frontier page exactly once |
| `Crawl.EnumeratesAppend` | src/main.rs:65-71 | appending a round's fetches, all of unvisited pages, to the fetch log keeps it a list of the visited set with no repeats |
| `Crawl.Explore` | src/main.rs:38-77 | the seed fetch and the frontier loop: the result is the least closed set that holds the seed, and lies in the given closed set; the seed is fetched first and every visited URL exactly once; after the returned number of rounds the state is `RoundAfter` of that many rounds, its frontier is empty, and every earlier frontier was not, so the loop ran exactly until the first empty frontier |
| `Crawl.Crawler.constructor` | src/main.rs:22-32 | a new crawler has the given client, an empty `given_url` and no found URLs |
| `Crawl.Crawler.Crawl` | src/main.rs:34-81 | `given_url` becomes the seed; `found_urls` becomes the least link-closed set that holds the seed (all reachable URLs and nothing else); the seed is fetched first; no URL is fetched twice; every found URL is fetched; `found_urls` is the visited set of `RoundAfter` after the returned number of rounds, whose frontier is empty while every earlier one was not. With `LinkGraph.RoundsAreLayers`, the frontier at round `k` is exactly the URLs at distance `k + 1` |
| `Cli.Decide` | src/main.rs:141-158 | usage exactly when the argument count is not 2; a crawl exactly when the seed starts with "http", and then of that seed; otherwise the not-valid error |
| `Cli.DecideExamples` | src/main.rs:143-155 | `httpx` and `https://a.com` are crawled; `ftp://a.com` and `HTTP://a.com` are refused; a missing or extra argument gives usage |
| `Cli.Run` | src/main.rs:141-158 | `main` takes the decided action, and an accepted seed ends with the least link-closed set that holds the seed as its found URLs |
| `Scenario.NoExtensions` | src/main.rs:101 | the filter passes `/b`, `/d` and `http://a.com/c`, and drops `http://a.com` |
| `Scenario.NormalizeSiteLinks` | src/main.rs:106-123 | against the seed `http://a.com`, `/b` and `/d` become `http://a.com//b` and `http://a.com//d`, and `http://a.com/c` is kept as written |
| `Scenario.LinksOfSeed` | src/main.rs:96-123 | the seed's page yields `http://a.com//b` and `http://a.com/c` |
| `Scenario.LinksOfB` | src/main.rs:96-123 | page `/b` yields only `http://a.com//d`; its link back to the bare host is dropped |
| `Scenario.LinksOfLeaves` | src/main.rs:96-104 | pages `/c` and `/d` yield no links |
| `Scenario.SiteShapeIsLeastClosed` | src/main.rs:34-81 | in any link graph of this shape, the four pages form the least closed set that holds the seed |
| `Scenario.SiteIsLeastClosed` | src/main.rs:34-123 | for the example site, the four pages, with root-relative ones in their `//` form, form the least closed set that holds the seed |
| `Scenario.SiteShapeRounds` | src/main.rs:38-74 | in any link graph of the site's shape, the frontier is `/b` and `/c` after the seed fetch, `/d` after one round, and empty after two |
| `Scenario.SiteShapeCrawl` | src/main.rs:34-81 | in any link graph of the site's shape, a crawl that ends with the least closed set and stops at its first empty frontier stores the four pages after exactly two rounds |
| `Scenario.CrawlSite` | src/main.rs:34-123 | a crawler run on the example site stores exactly those four URLs, after the seed fetch and exactly two rounds of the loop |

## Left out

- `fetch_html` (src/main.rs:83-94) is network I/O through the `reqwest` client. It is a total function of `Web`. The panic on a failed request or body read (src/main.rs:88, src/main.rs:92) is not modelled.
- `Crawler::new` can fail when the HTTP client cannot be built (src/main.rs:24-26). The constructor takes the client as given. Certificate settings are transport configuration.
- The HTML parser that finds `a` elements and their `href` attributes (src/main.rs:98-100) is foreign. It is the function `Web.hrefs` from page body to raw hrefs in document order.
- The internals of `Url::parse` and of URL serialization are foreign. `Parser` is a parameter, and a parsed URL keeps only its host and serialized form.
- `rayon` parallelism (src/main.rs:54-64) is modelled as a sequential loop in an unspecified order. The reduce is a set union, so the result is the same.
- `save_urls` (src/main.rs:125-138) writes a file, and it is not modelled. Neither is the error it returns from `crawl` (src/main.rs:78).
- `Instant` timing and all printing are left out.
- `Crawl.Crawler.Crawl`: the loop ends only when the reachable link graph is finite. The method requires a finite closed `universe` that holds the seed. When no such set exists, the source does not end either.
- `Crawl.Crawler.Crawl` requires the seed to parse. The source's fetch of the seed fails otherwise, and so does the unwrap in `normalize_url`.
- `Cli.Run` requires what `Crawl.Crawler.Crawl` requires, for the same reasons given in the two lines above: the seed parses, and a finite closed `universe` holds it.
- `Url.NormalizeUrl` requires the seed to parse, because the source unwraps its parse and panics otherwise. `Url.GetLinks` asks for this only when some href passes the extension filter, since only then is `normalize_url` called.
