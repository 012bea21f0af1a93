/**
 The link graph the crawler explores, and what a complete breadth-first
 crawl of it from a seed must produce.

 `links(u)` is the set of URLs the crawler follows from page `u` (fetching
 `u` and scoping its anchors). The crawl's result is the least set that holds
 the seed and is closed under `links`, which is also the set of URLs
 reachable from the seed. `RoundAfter` is the breadth-first crawl itself,
 round by round; its visited set after `k` rounds is `Ball(k)`, the URLs
 within `k` links of the seed, and once its frontier is empty the visited
 set is the least closed set.
 */
module LinkGraph {

  type LinkRelation = string -> set<string>

  /** Every link found on some page of `pages`. */
  ghost function Image(links: LinkRelation, pages: set<string>): set<string>
  {
    set u, v | u in pages && v in links(u) :: v
  }

  ghost predicate Closed(links: LinkRelation, s: set<string>)
  {
    forall u :: u in s ==> links(u) <= s
  }

  /** `s` is the least set that holds the seed and is closed under `links`. */
  ghost predicate LeastClosed(links: LinkRelation, seed: string, s: set<string>)
  {
    && seed in s
    && Closed(links, s)
    && WithinEveryClosed(links, seed, s)
  }

  /** `s` lies inside every closed set that holds the seed: it holds nothing a crawl need not reach. */
  ghost predicate WithinEveryClosed(links: LinkRelation, seed: string, s: set<string>)
  {
    forall t :: seed in t && Closed(links, t) ==> s <= t
  }

  /** A chain of links that starts at the seed. */
  ghost predicate IsPath(links: LinkRelation, seed: string, p: seq<string>)
  {
    && |p| > 0
    && p[0] == seed
    && forall i :: 0 <= i < |p| - 1 ==> p[i + 1] in links(p[i])
  }

  ghost predicate Reachable(links: LinkRelation, seed: string, v: string)
  {
    exists p :: IsPath(links, seed, p) && p[|p| - 1] == v
  }

  /**
   The URLs within `k` links of the seed: the seed, then each step adds the
   links of every page reached so far.
   */
  ghost function Ball(links: LinkRelation, seed: string, k: nat): set<string>
  {
    if k == 0 then {seed} else Ball(links, seed, k - 1) + Image(links, Ball(links, seed, k - 1))
  }

  /** The crawl's state at the head of a round: the visited set and the frontier (`new_urls`). */
  datatype Round = Round(visited: set<string>, frontier: set<string>)

  /**
   The state of a breadth-first crawl after `k` rounds of the loop: the seed
   fetch gives `{seed}` and its unvisited links; each round visits the
   frontier and keeps the unvisited links found on it.
   */
  ghost function RoundAfter(links: LinkRelation, seed: string, k: nat): Round
  {
    if k == 0 then Round({seed}, links(seed) - {seed})
    else
      var r := RoundAfter(links, seed, k - 1);
      var visited := r.visited + r.frontier;
      Round(visited, Image(links, r.frontier) - visited)
  }

  /** The crawl has not stopped before round `n`: every earlier frontier was non-empty. */
  ghost predicate RanRounds(links: LinkRelation, seed: string, n: nat)
  {
    forall j :: 0 <= j < n ==> RoundAfter(links, seed, j).frontier != {}
  }

  /**
   One round of the loop, from the state after `k` rounds: visiting the
   non-empty frontier and keeping the unvisited links found on it gives the
   state after `k + 1` rounds, which stays inside every closed set that holds
   the seed.
   */
  lemma RoundAdvance(links: LinkRelation, seed: string, k: nat, visited: set<string>, frontier: set<string>, t: set<string>)
    requires visited == RoundAfter(links, seed, k).visited && frontier == RoundAfter(links, seed, k).frontier
    requires RanRounds(links, seed, k) && frontier != {}
    requires seed in t && Closed(links, t)
    ensures visited + frontier == RoundAfter(links, seed, k + 1).visited
    ensures Image(links, frontier) - (visited + frontier) == RoundAfter(links, seed, k + 1).frontier
    ensures RanRounds(links, seed, k + 1)
    ensures visited !! frontier && visited + frontier <= t
    ensures t - (visited + frontier) < t - visited
  {
    RoundAfterStep(links, seed, k);
    RoundInClosed(links, seed, k, t);
    var u :| u in frontier;
    assert u in t - visited;
  }

  lemma ImageAddPage(links: LinkRelation, pages: set<string>, u: string)
    ensures Image(links, pages + {u}) == Image(links, pages) + links(u)
  {
  }

  lemma ImageUnion(links: LinkRelation, a: set<string>, b: set<string>)
    ensures Image(links, a + b) == Image(links, a) + Image(links, b)
  {
  }

  /** A set that holds the links of all its pages is closed. */
  lemma ClosedWhenImageInside(links: LinkRelation, s: set<string>)
    requires Image(links, s) <= s
    ensures Closed(links, s)
  {
    forall u, v | u in s && v in links(u)
      ensures v in s
    {
      assert v in Image(links, s);
    }
  }

  /** Every URL within `k` links of the seed lies in every closed set that holds the seed. */
  lemma {:induction false} BallInClosed(links: LinkRelation, seed: string, k: nat, t: set<string>)
    requires seed in t && Closed(links, t)
    ensures Ball(links, seed, k) <= t
  {
    if k > 0 {
      var before := Ball(links, seed, k - 1);
      BallInClosed(links, seed, k - 1, t);
      forall v | v in Image(links, before)
        ensures v in t
      {
        var u :| u in before && v in links(u);
      }
    }
  }

  /**
   Whatever a round has visited or queued lies in every closed set that holds
   the seed: the crawl takes in nothing it need not reach.
   */
  lemma RoundInClosed(links: LinkRelation, seed: string, k: nat, t: set<string>)
    requires seed in t && Closed(links, t)
    ensures RoundAfter(links, seed, k).visited + RoundAfter(links, seed, k).frontier <= t
  {
    RoundsAreLayers(links, seed, k);
    BallInClosed(links, seed, k, t);
    BallInClosed(links, seed, k + 1, t);
  }

  /**
   When the frontier after `k` rounds is empty, the visited set holds the
   seed and the links of all its pages: it is the least closed set that holds
   the seed.
   */
  lemma ExhaustedRoundIsLeastClosed(links: LinkRelation, seed: string, k: nat)
    requires RoundAfter(links, seed, k).frontier == {}
    ensures LeastClosed(links, seed, RoundAfter(links, seed, k).visited)
  {
    RoundsAreLayers(links, seed, k);
    var ball := Ball(links, seed, k);
    assert Ball(links, seed, k + 1) == ball + Image(links, ball);
    assert Ball(links, seed, k + 1) - ball == {};
    forall v | v in Image(links, ball)
      ensures v in ball
    {
      assert v in Ball(links, seed, k + 1) && v !in Ball(links, seed, k + 1) - ball;
    }
    ClosedWhenImageInside(links, ball);
    BallGrows(links, seed, 0, k);
    forall t | seed in t && Closed(links, t)
      ensures ball <= t
    {
      BallInClosed(links, seed, k, t);
    }
  }

  /** Every member of the least closed set, other than the seed, is a link of one of its pages. */
  lemma LeastClosedHasNoStrays(links: LinkRelation, seed: string, s: set<string>)
    requires LeastClosed(links, seed, s)
    ensures s <= {seed} + Image(links, s)
  {
    var t := s * ({seed} + Image(links, s));
    forall u, v | u in t && v in links(u)
      ensures v in t
    {
      assert v in Image(links, s);
    }
    assert Closed(links, t);
  }

  /** One more round visits the frontier and keeps the unvisited links found on it. */
  lemma RoundAfterStep(links: LinkRelation, seed: string, k: nat)
    ensures RoundAfter(links, seed, k + 1)
      == Round(RoundAfter(links, seed, k).visited + RoundAfter(links, seed, k).frontier,
               Image(links, RoundAfter(links, seed, k).frontier)
                 - (RoundAfter(links, seed, k).visited + RoundAfter(links, seed, k).frontier))
  {
  }

  /**
   The crawl proceeds in layers: after `k` rounds the visited set is exactly
   the URLs within `k` links of the seed, and the frontier exactly those first
   reached in `k + 1` links.
   */
  lemma {:induction false} RoundsAreLayers(links: LinkRelation, seed: string, k: nat)
    ensures RoundAfter(links, seed, k).visited == Ball(links, seed, k)
    ensures RoundAfter(links, seed, k).frontier == Ball(links, seed, k + 1) - Ball(links, seed, k)
  {
    if k == 0 {
      FirstLayer(links, seed);
    } else {
      RoundsAreLayers(links, seed, k - 1);
      var before, ball := Ball(links, seed, k - 1), Ball(links, seed, k);
      assert ball == before + Image(links, before);
      assert Ball(links, seed, k + 1) == ball + Image(links, ball);
      var r := RoundAfter(links, seed, k - 1);
      assert r.visited == before && r.frontier == ball - before;
      LayerStep(links, before, ball);
      assert RoundAfter(links, seed, k) == Round(ball, Image(links, ball - before) - ball);
    }
  }

  /** The seed fetch: the frontier is the seed's links other than itself, which are the URLs one link away. */
  lemma FirstLayer(links: LinkRelation, seed: string)
    ensures RoundAfter(links, seed, 0) == Round({seed}, links(seed) - {seed})
    ensures Ball(links, seed, 0) == {seed}
    ensures Ball(links, seed, 1) - Ball(links, seed, 0) == links(seed) - {seed}
  {
    assert Ball(links, seed, 1) == {seed} + Image(links, {seed});
    ImageAddPage(links, {}, seed);
    assert Image(links, {seed}) == links(seed);
  }

  /** One round of the loop turns the layer below `ball` into `ball` and the next layer. */
  lemma LayerStep(links: LinkRelation, before: set<string>, ball: set<string>)
    requires ball == before + Image(links, before)
    ensures before + (ball - before) == ball
    ensures Image(links, ball - before) - ball == (ball + Image(links, ball)) - ball
  {
    ImageUnion(links, before, ball - before);
    assert before + (ball - before) == ball;
  }

  /** `v` ends a link path from the seed of at most `k + 1` URLs (`k` links). */
  ghost predicate WithinSteps(links: LinkRelation, seed: string, k: nat, v: string)
  {
    exists p :: IsPath(links, seed, p) && |p| <= k + 1 && p[|p| - 1] == v
  }

  lemma {:induction false} BallHasPath(links: LinkRelation, seed: string, k: nat, v: string)
    requires v in Ball(links, seed, k)
    ensures WithinSteps(links, seed, k, v)
  {
    if k == 0 {
      assert IsPath(links, seed, [seed]);
    } else if v in Ball(links, seed, k - 1) {
      BallHasPath(links, seed, k - 1, v);
      var p :| IsPath(links, seed, p) && |p| <= k && p[|p| - 1] == v;
    } else {
      var u :| u in Ball(links, seed, k - 1) && v in links(u);
      BallHasPath(links, seed, k - 1, u);
      var p :| IsPath(links, seed, p) && |p| <= k && p[|p| - 1] == u;
      ExtendPath(links, seed, p, v);
    }
  }

  lemma ExtendPath(links: LinkRelation, seed: string, p: seq<string>, v: string)
    requires IsPath(links, seed, p) && v in links(p[|p| - 1])
    ensures IsPath(links, seed, p + [v])
  {
    var q := p + [v];
    forall i | 0 <= i < |q| - 1
      ensures q[i + 1] in links(q[i])
    {
      if i < |p| - 1 {
        assert q[i + 1] == p[i + 1] && q[i] == p[i];
      }
    }
  }

  lemma {:induction false} PathInBall(links: LinkRelation, seed: string, k: nat, p: seq<string>)
    requires IsPath(links, seed, p) && |p| <= k + 1
    ensures p[|p| - 1] in Ball(links, seed, k)
  {
    if |p| == 1 {
      BallGrows(links, seed, 0, k);
    } else {
      var q := p[..|p| - 1];
      assert IsPath(links, seed, q);
      PathInBall(links, seed, k - 1, q);
      assert p[|p| - 1] in links(q[|q| - 1]);
    }
  }

  lemma {:induction false} BallGrows(links: LinkRelation, seed: string, j: nat, k: nat)
    requires j <= k
    ensures Ball(links, seed, j) <= Ball(links, seed, k)
    decreases k
  {
    if j < k {
      BallGrows(links, seed, j, k - 1);
    }
  }

  /** The URLs within `k` links of the seed are exactly the ends of link paths of at most `k` links. */
  lemma BallIsWithinSteps(links: LinkRelation, seed: string, k: nat, v: string)
    ensures v in Ball(links, seed, k) <==> WithinSteps(links, seed, k, v)
  {
    if v in Ball(links, seed, k) {
      BallHasPath(links, seed, k, v);
    }
    if WithinSteps(links, seed, k, v) {
      var p :| IsPath(links, seed, p) && |p| <= k + 1 && p[|p| - 1] == v;
      PathInBall(links, seed, k, p);
    }
  }

  /** There is only one least closed set holding the seed. */
  lemma LeastClosedUnique(links: LinkRelation, seed: string, s: set<string>, s': set<string>)
    requires LeastClosed(links, seed, s) && LeastClosed(links, seed, s')
    ensures s == s'
  {
    assert s <= s' && s' <= s;
  }

  lemma {:induction false} PathInClosed(links: LinkRelation, seed: string, s: set<string>, p: seq<string>, i: nat)
    requires seed in s && Closed(links, s)
    requires IsPath(links, seed, p) && i < |p|
    ensures p[i] in s
  {
    if i > 0 {
      PathInClosed(links, seed, s, p, i - 1);
    }
  }

  /** The least closed set holding the seed is exactly the set of URLs reachable from it. */
  lemma LeastClosedIsReachable(links: LinkRelation, seed: string, s: set<string>, v: string)
    requires LeastClosed(links, seed, s)
    ensures v in s <==> Reachable(links, seed, v)
  {
    if Reachable(links, seed, v) {
      var p :| IsPath(links, seed, p) && p[|p| - 1] == v;
      PathInClosed(links, seed, s, p, |p| - 1);
    }
    if v in s {
      var r := set w | w in s && Reachable(links, seed, w);
      assert IsPath(links, seed, [seed]);
      forall u, w | u in r && w in links(u)
        ensures w in r
      {
        var p :| IsPath(links, seed, p) && p[|p| - 1] == u;
        assert IsPath(links, seed, p + [w]);
      }
      assert Closed(links, r);
    }
  }
}
