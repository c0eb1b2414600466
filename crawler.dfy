/**
 * `web_crawler` (web_crawlar/script.py:46-72): a breadth-first crawl over a
 * FIFO queue of `(url, identifier, depth)` entries with a set of visited URLs.
 *
 * `get_page_content` is the oracle `fetch` (`None` for a failed request or a
 * status other than 200), `urljoin` the parameter `join`, `save_text` a write
 * appended to `log` and applied to the directory `files`, and `time.sleep(5)`
 * an increment of `sleeps`.  The ghost results record every entry ever queued
 * (`enqueued`), every entry whose page was requested (`fetched`) and every
 * entry whose text was saved (`saved`), in order, and the links queued for
 * each saved entry (`children`).
 *
 * The invariant predicates appear in contracts and loop invariants as
 * `P(..) == true`: this stops Dafny from splitting `P` into its conjuncts, so
 * each such fact is proved once, by the lemma that states it.
 */
module CrawlState {
  import opened Wrappers
  import opened Cleaner
  import opened Links
  import opened Identifiers
  import opened Persistence

  /** An entry of the queue: `(url, identifier, depth)`. */
  datatype CrawlNode = CrawlNode(url: string, identifier: string, depth: nat)

  /** Where a name comes from: the seed (counted from 0) and the ranks of the links followed from it. */
  datatype Origin = Origin(seed: nat, path: string)

  function Parent(o: Origin): Origin
    requires o.path != []
  {
    Origin(o.seed, o.path[..|o.path| - 1])
  }

  /** `page_content` is neither `None` nor empty: the test of script.py:59 lets it through. */
  predicate HasContent(page: Option<string>) { page.Some? && page.value != "" }

  /** `f"{identifier}.txt"` */
  function Filename(node: CrawlNode): string { node.identifier + ".txt" }

  /** The queue built at script.py:48. */
  function SeedNodes(seeds: seq<string>): seq<CrawlNode>
  {
    seq(|seeds|, k requires 0 <= k < |seeds| => CrawlNode(seeds[k], SeedId(k), 0))
  }

  /** The entries appended at script.py:69-70 for the links of `node`. */
  function ChildNodes(node: CrawlNode, links: seq<string>): seq<CrawlNode>
  {
    seq(|links|, i requires 0 <= i < |links| => CrawlNode(links[i], ChildId(node.identifier, i + 1), node.depth + 1))
  }

  /** The nodes of `fetched` whose page had content, in order: the nodes that are saved. */
  function Successes(fetched: seq<CrawlNode>, fetch: string -> Option<string>): (saved: seq<CrawlNode>)
    ensures forall n :: n in saved <==> n in fetched && HasContent(fetch(n.url))
  {
    if fetched == [] then []
    else
      var last := fetched[|fetched| - 1];
      var before := fetched[..|fetched| - 1];
      assert fetched == before + [last];
      if HasContent(fetch(last.url)) then Successes(before, fetch) + [last] else Successes(before, fetch)
  }

  /** The URLs of `nodes`: what `visited` holds once those entries are saved. */
  function Urls(nodes: seq<CrawlNode>): set<string>
  {
    if nodes == [] then {} else Urls(nodes[..|nodes| - 1]) + {nodes[|nodes| - 1].url}
  }

  lemma {:induction false} UrlsContain(nodes: seq<CrawlNode>)
    ensures forall i :: 0 <= i < |nodes| ==> nodes[i].url in Urls(nodes)
  {
    if nodes != [] {
      UrlsContain(nodes[..|nodes| - 1]);
    }
  }

  /** `Urls` holds the URLs of the entries and nothing else. */
  lemma {:induction false} UrlsAsSet(nodes: seq<CrawlNode>)
    ensures Urls(nodes) == set n | n in nodes :: n.url
  {
    if nodes != [] {
      var before := nodes[..|nodes| - 1];
      UrlsAsSet(before);
      assert nodes == before + [nodes[|nodes| - 1]];
    }
  }

  /**
   * `node`'s name is the name of one of the first `seedCount` seeds followed by
   * exactly `node.depth` ranks, each `1` or `2`.
   */
  ghost predicate WellNamed(node: CrawlNode, seedCount: nat) {
    && node.depth <= |node.identifier|
    && IsRankPath(node.identifier[|node.identifier| - node.depth..])
    && exists k :: 0 <= k < seedCount && node.identifier[..|node.identifier| - node.depth] == SeedId(k)
  }

  function Pow2(n: nat): (r: nat)
    ensures r >= 1
  {
    if n == 0 then 1 else 2 * Pow2(n - 1)
  }

  /**
   * The most iterations an entry at `depth` can still cause: itself and, while
   * shallower than `maxDepth`, two children each.
   */
  function Weight(depth: nat, maxDepth: int): (w: nat)
    ensures w >= 1
  {
    if depth > maxDepth then 1 else Pow2(maxDepth - depth + 1) - 1
  }

  function QueueWeight(queue: seq<CrawlNode>, maxDepth: int): nat
  {
    if queue == [] then 0 else Weight(queue[0].depth, maxDepth) + QueueWeight(queue[1..], maxDepth)
  }

  lemma {:induction false} QueueWeightAppend(a: seq<CrawlNode>, b: seq<CrawlNode>, maxDepth: int)
    ensures QueueWeight(a + b, maxDepth) == QueueWeight(a, maxDepth) + QueueWeight(b, maxDepth)
  {
    if a == [] {
      assert a + b == b;
    } else {
      assert (a + b)[1..] == a[1..] + b;
      QueueWeightAppend(a[1..], b, maxDepth);
    }
  }

  /** The (at most two) children of a node shallower than `maxDepth` weigh less than the node. */
  lemma ChildrenLighter(node: CrawlNode, links: seq<string>, maxDepth: int)
    requires |links| <= 2 && node.depth < maxDepth
    ensures QueueWeight(ChildNodes(node, links), maxDepth) < Weight(node.depth, maxDepth)
  {
    var c := ChildNodes(node, links);
    var w := Weight(node.depth + 1, maxDepth);
    assert Pow2(maxDepth - node.depth + 1) == 2 * Pow2(maxDepth - node.depth);
    assert w == Pow2(maxDepth - node.depth) - 1;
    if |c| == 0 {
    } else if |c| == 1 {
      assert c[1..] == [];
      assert QueueWeight(c, maxDepth) == w;
    } else {
      assert c[1..][0] == c[1] && c[1..][1..] == [];
      assert c[0].depth == c[1].depth == node.depth + 1;
      assert QueueWeight(c[1..], maxDepth) == w;
      assert QueueWeight(c, maxDepth) == 2 * w;
    }
  }

  /**
   * The crawl so far, as ghost bookkeeping: the queue is `enqueued[h..]`, and
   * `children[i]` holds the links queued for `saved[i]`.
   */
  datatype Trace = Trace(enqueued: seq<CrawlNode>, origins: seq<Origin>, parentIdx: seq<nat>, h: nat,
                         fetched: seq<CrawlNode>, saved: seq<CrawlNode>, children: seq<seq<string>>)

  predicate NamedBy(node: CrawlNode, o: Origin, seedCount: nat) {
    && o.seed < seedCount && IsRankPath(o.path) && |o.path| == node.depth
    && node.identifier == SeedId(o.seed) + o.path
  }

  /** The queue starts with the seeds, in order, at depth 0. */
  ghost predicate SeedsFirst(seeds: seq<string>, enqueued: seq<CrawlNode>) {
    |seeds| <= |enqueued| && forall k :: 0 <= k < |seeds| ==> enqueued[k] == CrawlNode(seeds[k], SeedId(k), 0)
  }

  /** Every entry after the seeds lies between depth 1 and `maxDepth`. */
  ghost predicate ChildrenDeep(seedCount: nat, maxDepth: int, enqueued: seq<CrawlNode>) {
    forall j :: seedCount <= j < |enqueued| ==> 1 <= enqueued[j].depth <= maxDepth
  }

  /** Each entry is named after the origin at the same index. */
  ghost predicate AllNamed(enqueued: seq<CrawlNode>, origins: seq<Origin>, seedCount: nat) {
    |origins| == |enqueued| && forall j :: 0 <= j < |enqueued| ==> NamedBy(enqueued[j], origins[j], seedCount)
  }

  ghost predicate OriginsDistinct(origins: seq<Origin>) {
    forall i, j :: 0 <= i < j < |origins| ==> origins[i] != origins[j]
  }

  /** The parent of every origin but a seed's is the origin at `parentIdx`, which is below `h`. */
  ghost predicate ParentsBefore(origins: seq<Origin>, parentIdx: seq<nat>, h: nat) {
    && |parentIdx| == |origins| && h <= |origins|
    && forall j :: 0 <= j < |origins| && origins[j].path != [] ==> parentIdx[j] < h && origins[parentIdx[j]] == Parent(origins[j])
  }

  /** Seeds first, children one level down, every name derived from a distinct origin. */
  ghost predicate NamesOk(seeds: seq<string>, maxDepth: int, t: Trace) {
    && SeedsFirst(seeds, t.enqueued) && ChildrenDeep(|seeds|, maxDepth, t.enqueued)
    && AllNamed(t.enqueued, t.origins, |seeds|) && OriginsDistinct(t.origins)
    && ParentsBefore(t.origins, t.parentIdx, t.h)
  }

  /** Depths never decrease along the queue, and the queue spans at most two levels. */
  ghost predicate BreadthOk(t: Trace) {
    && t.h <= |t.enqueued|
    && (forall i, j :: 0 <= i <= j < |t.enqueued| ==> t.enqueued[i].depth <= t.enqueued[j].depth)
    && (t.h < |t.enqueued| ==> forall j :: t.h <= j < |t.enqueued| ==> t.enqueued[j].depth <= t.enqueued[t.h].depth + 1)
  }

  /** Which dequeued entries were requested. */
  ghost predicate RequestsOk(maxDepth: int, fetch: string -> Option<string>, t: Trace, visited: set<string>) {
    && t.h <= |t.enqueued|
    && (forall i :: 0 <= i < |t.fetched| ==> t.fetched[i] in t.enqueued[..t.h] && t.fetched[i].depth <= maxDepth)
    && (forall i, j :: 0 <= i <= j < |t.fetched| ==> t.fetched[i].depth <= t.fetched[j].depth)
    && (t.h < |t.enqueued| ==> forall i :: 0 <= i < |t.fetched| ==> t.fetched[i].depth <= t.enqueued[t.h].depth)
    && (forall i, j :: 0 <= i < j < |t.fetched| && t.fetched[i].url == t.fetched[j].url ==> !HasContent(fetch(t.fetched[i].url)))
    && (forall j :: 0 <= j < t.h && t.enqueued[j].depth <= maxDepth ==> t.enqueued[j].url in visited || t.enqueued[j] in t.fetched)
  }

  /** What was saved, and where. */
  ghost predicate SavesOk(fetch: string -> Option<string>, clean: string -> string, t: Trace, visited: set<string>,
                          log: seq<Write>, files: map<string, string>, sleeps: nat) {
    && t.saved == Successes(t.fetched, fetch)
    && |log| == |t.saved|
    && (forall i :: 0 <= i < |t.saved| ==>
          HasContent(fetch(t.saved[i].url)) && log[i] == Write(Filename(t.saved[i]), clean(fetch(t.saved[i].url).value)))
    && (forall i, j :: 0 <= i < j < |t.saved| ==> t.saved[i].url != t.saved[j].url)
    && visited == Urls(t.saved)
    && files == Persist(log)
    && sleeps == |t.saved|
  }

  function InitialTrace(seeds: seq<string>): Trace
  {
    Trace(SeedNodes(seeds), seq(|seeds|, k requires 0 <= k < |seeds| => Origin(k, "")), seq(|seeds|, k => 0), 0, [], [], [])
  }

  /** The origin of the child of rank `i + 1`. */
  function ChildOrigin(o: Origin, i: nat): Origin { Origin(o.seed, o.path + DecimalString(i + 1)) }

  /** The origins of the first `n` children of `o`. */
  function ChildOrigins(o: Origin, n: nat): seq<Origin>
  {
    seq(n, i requires 0 <= i < n => ChildOrigin(o, i))
  }

  function Repeat(h: nat, n: nat): seq<nat> { seq(n, i => h) }

  /** The entry at the head of the queue was visited or too deep. */
  function AfterSkip(t: Trace): Trace { t.(h := t.h + 1) }

  /** The entry at the head of the queue was requested and its page had no content. */
  function AfterEmpty(t: Trace): Trace
    requires t.h < |t.enqueued|
  {
    t.(h := t.h + 1, fetched := t.fetched + [t.enqueued[t.h]])
  }

  /** The entry at the head of the queue was requested, saved, and its `links` queued. */
  function AfterSave(t: Trace, links: seq<string>): Trace
    requires t.h < |t.enqueued| && t.h < |t.origins|
  {
    var node := t.enqueued[t.h];
    var o := t.origins[t.h];
    t.(enqueued := t.enqueued + ChildNodes(node, links),
       origins := t.origins + ChildOrigins(o, |links|),
       parentIdx := t.parentIdx + Repeat(t.h, |links|),
       h := t.h + 1,
       fetched := t.fetched + [node],
       saved := t.saved + [node],
       children := t.children + [links])
  }

  /**
   * The entries queued for the saved nodes, in order of saving: for each
   * `saved[i]`, one entry per link in `children[i]`, named after it with
   * the link's rank.
   */
  function QueuedChildren(saved: seq<CrawlNode>, children: seq<seq<string>>): seq<CrawlNode>
    requires |children| == |saved|
    decreases |saved|
  {
    if saved == [] then []
    else QueuedChildren(saved[..|saved| - 1], children[..|children| - 1]) + ChildNodes(saved[|saved| - 1], children[|children| - 1])
  }

  lemma QueuedChildrenAppend(saved: seq<CrawlNode>, children: seq<seq<string>>, node: CrawlNode, links: seq<string>)
    requires |children| == |saved|
    ensures QueuedChildren(saved + [node], children + [links]) == QueuedChildren(saved, children) + ChildNodes(node, links)
  {
    assert (saved + [node])[..|saved|] == saved;
    assert (children + [links])[..|children|] == children;
  }

  /**
   * Every entry queued for a saved node is the `k + 1`-th of its links, named
   * `f"{identifier}{k + 1}"`, one level down.
   */
  lemma {:induction false} QueuedChildrenFrom(saved: seq<CrawlNode>, children: seq<seq<string>>, x: CrawlNode)
    requires |children| == |saved| && x in QueuedChildren(saved, children)
    ensures exists i, k :: 0 <= i < |saved| && 0 <= k < |children[i]| &&
              x == CrawlNode(children[i][k], ChildId(saved[i].identifier, k + 1), saved[i].depth + 1)
    decreases |saved|
  {
    var n := |saved| - 1;
    var before, last := QueuedChildren(saved[..n], children[..n]), ChildNodes(saved[n], children[n]);
    if x in before {
      QueuedChildrenFrom(saved[..n], children[..n], x);
      var i, k :| 0 <= i < n && 0 <= k < |children[..n][i]| &&
                  x == CrawlNode(children[..n][i][k], ChildId(saved[..n][i].identifier, k + 1), saved[..n][i].depth + 1);
      assert saved[..n][i] == saved[i] && children[..n][i] == children[i];
    } else {
      assert x in last;
      var k :| 0 <= k < |last| && last[k] == x;
    }
  }

  /** The entry queued for the `k + 1`-th link of `saved[i]` is among the queued children. */
  lemma {:induction false} QueuedChildrenHas(saved: seq<CrawlNode>, children: seq<seq<string>>, i: nat, k: nat)
    requires |children| == |saved| && i < |saved| && k < |children[i]|
    ensures CrawlNode(children[i][k], ChildId(saved[i].identifier, k + 1), saved[i].depth + 1) in QueuedChildren(saved, children)
    decreases |saved|
  {
    var n := |saved| - 1;
    var x := CrawlNode(children[i][k], ChildId(saved[i].identifier, k + 1), saved[i].depth + 1);
    if i < n {
      assert saved[..n][i] == saved[i] && children[..n][i] == children[i];
      QueuedChildrenHas(saved[..n], children[..n], i, k);
    } else {
      assert ChildNodes(saved[n], children[n])[k] == x;
    }
  }

  /**
   * The links queued for a saved node whose page `fetch` gave: shallower than
   * `maxDepth`, the result of `extract_links(page_content, url, limit=2)`
   * for some listing of the joined set (script.py:67-70); none otherwise.
   */
  ghost predicate LinksFollowed(maxDepth: int, fetch: string -> Option<string>, join: (string, string) -> string,
                                node: CrawlNode, links: seq<string>)
  {
    && fetch(node.url).Some?
    && if node.depth < maxDepth then
         var page := fetch(node.url).value;
         exists order :: IsEnumeration(order, JoinedSet(page, node.url, join)) && links == ExtractLinks(page, node.url, 2, join, order)
       else links == []
  }

  /** Every entry after the seeds was queued for a saved node, from the links of its page. */
  ghost predicate LinkedOk(seeds: seq<string>, maxDepth: int, fetch: string -> Option<string>, join: (string, string) -> string,
                           enqueued: seq<CrawlNode>, saved: seq<CrawlNode>, children: seq<seq<string>>)
  {
    && |children| == |saved|
    && enqueued == SeedNodes(seeds) + QueuedChildren(saved, children)
    && forall i :: 0 <= i < |saved| ==> LinksFollowed(maxDepth, fetch, join, saved[i], children[i])
  }

  /**
   * A saved page shallower than `maxDepth` that holds at least one link gets its first
   * joined link queued, as `f"{identifier}1"` one level down.
   */
  lemma SavedPageLinksQueued(seeds: seq<string>, maxDepth: int, fetch: string -> Option<string>, join: (string, string) -> string,
                             enqueued: seq<CrawlNode>, saved: seq<CrawlNode>, children: seq<seq<string>>, i: nat)
    requires LinkedOk(seeds, maxDepth, fetch, join, enqueued, saved, children)
    requires i < |saved| && saved[i].depth < maxDepth
    requires FindHrefs(fetch(saved[i].url).value) != []
    ensures children[i] != []
    ensures CrawlNode(children[i][0], ChildId(saved[i].identifier, 1), saved[i].depth + 1) in enqueued
  {
    var page, url := fetch(saved[i].url).value, saved[i].url;
    var l := FindHrefs(page)[0];
    assert join(url, l) in JoinedSet(page, url, join);
    assert LinksFollowed(maxDepth, fetch, join, saved[i], children[i]);
    QueuedChildrenHas(saved, children, i, 0);
  }

  lemma InitialLinked(seeds: seq<string>, maxDepth: int, fetch: string -> Option<string>, join: (string, string) -> string)
    ensures var t := InitialTrace(seeds);
            LinkedOk(seeds, maxDepth, fetch, join, t.enqueued, t.saved, t.children)
  {
    assert SeedNodes(seeds) + [] == SeedNodes(seeds);
  }

  /** One iteration keeps the record of which links were queued for which saved node. */
  lemma StepLinked(seeds: seq<string>, maxDepth: int, fetch: string -> Option<string>, join: (string, string) -> string,
                   t: Trace, outcome: Outcome, links: seq<string>)
    requires LinkedOk(seeds, maxDepth, fetch, join, t.enqueued, t.saved, t.children) == true
    requires t.h < |t.enqueued| && t.h < |t.origins|
    requires outcome != Saved ==> links == []
    requires outcome == Saved ==> LinksFollowed(maxDepth, fetch, join, t.enqueued[t.h], links)
    ensures var t' := Step(t, outcome, links);
            LinkedOk(seeds, maxDepth, fetch, join, t'.enqueued, t'.saved, t'.children) == true
  {
    if outcome == Saved {
      assert Step(t, outcome, links) == AfterSave(t, links);
      LinkedSave(seeds, maxDepth, fetch, join, t.enqueued, t.saved, t.children, t.enqueued[t.h], links);
    } else {
      assert ChildNodes(t.enqueued[t.h], links) == [];
    }
  }

  /** Saving `node` and queueing `links` for it, as its page dictates, keeps the record. */
  lemma LinkedSave(seeds: seq<string>, maxDepth: int, fetch: string -> Option<string>, join: (string, string) -> string,
                   enqueued: seq<CrawlNode>, saved: seq<CrawlNode>, children: seq<seq<string>>, node: CrawlNode, links: seq<string>)
    requires LinkedOk(seeds, maxDepth, fetch, join, enqueued, saved, children) == true
    requires LinksFollowed(maxDepth, fetch, join, node, links) == true
    ensures LinkedOk(seeds, maxDepth, fetch, join, enqueued + ChildNodes(node, links), saved + [node], children + [links])
  {
    QueuedChildrenAppend(saved, children, node, links);
    AppendAfterSeeds(SeedNodes(seeds), QueuedChildren(saved, children), ChildNodes(node, links));
    FollowedAppend(maxDepth, fetch, join, saved, children, node, links);
  }

  lemma AppendAfterSeeds(seedNodes: seq<CrawlNode>, queued: seq<CrawlNode>, more: seq<CrawlNode>)
    ensures (seedNodes + queued) + more == seedNodes + (queued + more)
  {
  }

  lemma FollowedAppend(maxDepth: int, fetch: string -> Option<string>, join: (string, string) -> string,
                       saved: seq<CrawlNode>, children: seq<seq<string>>, node: CrawlNode, links: seq<string>)
    requires |children| == |saved|
    requires forall i :: 0 <= i < |saved| ==> LinksFollowed(maxDepth, fetch, join, saved[i], children[i])
    requires LinksFollowed(maxDepth, fetch, join, node, links) == true
    ensures forall i :: 0 <= i < |saved| + 1 ==> LinksFollowed(maxDepth, fetch, join, (saved + [node])[i], (children + [links])[i])
  {
    forall i | 0 <= i < |saved| + 1 ensures LinksFollowed(maxDepth, fetch, join, (saved + [node])[i], (children + [links])[i]) {
      if i < |saved| {
        assert (saved + [node])[i] == saved[i] && (children + [links])[i] == children[i];
      } else {
        assert (saved + [node])[i] == node && (children + [links])[i] == links;
      }
    }
  }

  /** The URLs of the entries of `queue` within `maxDepth` whose page has content. */
  function SavableUrls(maxDepth: int, fetch: string -> Option<string>, queue: seq<CrawlNode>): set<string>
  {
    set i | 0 <= i < |queue| && queue[i].depth <= maxDepth && HasContent(fetch(queue[i].url)) :: queue[i].url
  }

  /**
   * The requests made when the entries of `queue` are taken out first in,
   * first out (script.py:52-61): an entry is requested unless it is deeper
   * than `maxDepth` or its URL is in `SavableUrls` of the entries before it,
   * that is, some earlier entry with its URL is within `maxDepth` and its
   * page has content.  `ServedUrls` shows that this set is the set of URLs
   * saved so far, which is what `visited` holds at script.py:54.
   */
  function Served(maxDepth: int, fetch: string -> Option<string>, queue: seq<CrawlNode>): seq<CrawlNode>
  {
    if queue == [] then []
    else
      var before := Served(maxDepth, fetch, queue[..|queue| - 1]);
      var node := queue[|queue| - 1];
      if node.url in SavableUrls(maxDepth, fetch, queue[..|queue| - 1]) || node.depth > maxDepth then before else before + [node]
  }

  /** Serving `queue + [node]` serves `queue`, then requests `node` unless it is too deep or its URL is in `SavableUrls(.., queue)`. */
  lemma ServedAppend(maxDepth: int, fetch: string -> Option<string>, queue: seq<CrawlNode>, node: CrawlNode)
    ensures var before := Served(maxDepth, fetch, queue);
            Served(maxDepth, fetch, queue + [node])
            == if node.url in SavableUrls(maxDepth, fetch, queue) || node.depth > maxDepth then before else before + [node]
  {
    assert (queue + [node])[..|queue|] == queue;
  }

  lemma SavableAppend(maxDepth: int, fetch: string -> Option<string>, queue: seq<CrawlNode>, node: CrawlNode)
    ensures SavableUrls(maxDepth, fetch, queue + [node])
            == SavableUrls(maxDepth, fetch, queue) + if node.depth <= maxDepth && HasContent(fetch(node.url)) then {node.url} else {}
  {
    var q := queue + [node];
    forall u | u in SavableUrls(maxDepth, fetch, queue) ensures u in SavableUrls(maxDepth, fetch, q) {
      var i :| 0 <= i < |queue| && queue[i].depth <= maxDepth && HasContent(fetch(queue[i].url)) && queue[i].url == u;
      assert q[i] == queue[i];
    }
    forall u | u in SavableUrls(maxDepth, fetch, q)
      ensures u in SavableUrls(maxDepth, fetch, queue) || (u == node.url && node.depth <= maxDepth && HasContent(fetch(node.url)))
    {
      var i :| 0 <= i < |q| && q[i].depth <= maxDepth && HasContent(fetch(q[i].url)) && q[i].url == u;
      if i < |queue| {
        assert queue[i] == q[i];
      }
    }
    if node.depth <= maxDepth && HasContent(fetch(node.url)) {
      assert q[|queue|] == node;
    }
  }

  /** Serving `queue` saves exactly the URLs of its entries within `maxDepth` whose page has content. */
  lemma {:induction false} ServedUrls(maxDepth: int, fetch: string -> Option<string>, queue: seq<CrawlNode>)
    ensures Urls(Successes(Served(maxDepth, fetch, queue), fetch)) == SavableUrls(maxDepth, fetch, queue)
  {
    if queue != [] {
      var init := queue[..|queue| - 1];
      var node := queue[|queue| - 1];
      assert queue == init + [node];
      ServedUrls(maxDepth, fetch, init);
      var before := Served(maxDepth, fetch, init);
      ServedAppend(maxDepth, fetch, init, node);
      SavableAppend(maxDepth, fetch, init, node);
      SuccessesAppend(before, node, fetch);
      UrlsAppend(Successes(before, fetch), node);
    }
  }

  /**
   * The first entry of `queue` within `maxDepth` with a given URL, when that
   * URL's page has content, is the one saved for it, and no other entry with
   * that URL is saved.
   */
  lemma {:induction false} ServedFirst(maxDepth: int, fetch: string -> Option<string>, queue: seq<CrawlNode>, j: nat)
    requires j < |queue| && queue[j].depth <= maxDepth && HasContent(fetch(queue[j].url))
    requires forall i :: 0 <= i < j && queue[i].url == queue[j].url ==> queue[i].depth > maxDepth
    ensures queue[j] in Successes(Served(maxDepth, fetch, queue), fetch)
    ensures forall n :: n in Successes(Served(maxDepth, fetch, queue), fetch) && n.url == queue[j].url ==> n == queue[j]
    decreases |queue|
  {
    var init := queue[..|queue| - 1];
    var node := queue[|queue| - 1];
    assert queue == init + [node];
    if j == |queue| - 1 {
      forall i | 0 <= i < |init| && init[i].url == node.url ensures init[i].depth > maxDepth {
        assert init[i] == queue[i];
      }
      ServedFirstLast(maxDepth, fetch, init, node);
    } else {
      forall i | 0 <= i < j && init[i].url == init[j].url ensures init[i].depth > maxDepth {
        assert init[i] == queue[i];
      }
      ServedFirst(maxDepth, fetch, init, j);
      assert init[j] == queue[j];
      ServedFirstKept(maxDepth, fetch, init, node, init[j]);
    }
  }

  /** The case of `ServedFirst` where the entry is the last one. */
  lemma ServedFirstLast(maxDepth: int, fetch: string -> Option<string>, init: seq<CrawlNode>, node: CrawlNode)
    requires node.depth <= maxDepth && HasContent(fetch(node.url))
    requires forall i :: 0 <= i < |init| && init[i].url == node.url ==> init[i].depth > maxDepth
    ensures node in Successes(Served(maxDepth, fetch, init + [node]), fetch)
    ensures forall n :: n in Successes(Served(maxDepth, fetch, init + [node]), fetch) && n.url == node.url ==> n == node
  {
    var before := Served(maxDepth, fetch, init);
    ServedAppend(maxDepth, fetch, init, node);
    ServedUrls(maxDepth, fetch, init);
    SuccessesAppend(before, node, fetch);
    forall n | n in Successes(before, fetch) ensures n.url != node.url {
      SavedUrl(Successes(before, fetch), n);
    }
  }

  /** Serving one more entry keeps the saved entry for a URL already saved. */
  lemma ServedFirstKept(maxDepth: int, fetch: string -> Option<string>, init: seq<CrawlNode>, node: CrawlNode, first: CrawlNode)
    requires first in Successes(Served(maxDepth, fetch, init), fetch)
    requires forall n :: n in Successes(Served(maxDepth, fetch, init), fetch) && n.url == first.url ==> n == first
    ensures first in Successes(Served(maxDepth, fetch, init + [node]), fetch)
    ensures forall n :: n in Successes(Served(maxDepth, fetch, init + [node]), fetch) && n.url == first.url ==> n == first
  {
    var before := Served(maxDepth, fetch, init);
    ServedAppend(maxDepth, fetch, init, node);
    SuccessesAppend(before, node, fetch);
    if node.url == first.url {
      ServedUrls(maxDepth, fetch, init);
      SavedUrl(Successes(before, fetch), first);
    }
  }

  /** An entry's URL is among the URLs of a sequence holding it. */
  lemma SavedUrl(nodes: seq<CrawlNode>, n: CrawlNode)
    requires n in nodes
    ensures n.url in Urls(nodes)
  {
    UrlsContain(nodes);
  }

  /** Two seeds with the same URL: only the first is requested and saved, as `url1`, and the second is skipped. */
  lemma RepeatedSeedServedOnce(maxDepth: int, fetch: string -> Option<string>)
    requires maxDepth >= 0 && HasContent(fetch("a"))
    ensures Served(maxDepth, fetch, SeedNodes(["a", "a"])) == [CrawlNode("a", "url1", 0)]
  {
    var q := SeedNodes(["a", "a"]);
    assert SeedId(0) == "url1" by {
      assert DecimalString(1) == "1";
    }
    assert q == [q[0]] + [q[1]] && [] + [q[0]] == [q[0]];
    ServedAppend(maxDepth, fetch, [], q[0]);
    ServedAppend(maxDepth, fetch, [q[0]], q[1]);
    assert [q[0]][0] == q[0];
  }

  /** The requests so far are those made serving the dequeued entries in order. */
  ghost predicate ServedOk(maxDepth: int, fetch: string -> Option<string>, t: Trace) {
    t.h <= |t.enqueued| && t.fetched == Served(maxDepth, fetch, t.enqueued[..t.h])
  }

  lemma InitialServed(seeds: seq<string>, maxDepth: int, fetch: string -> Option<string>)
    ensures ServedOk(maxDepth, fetch, InitialTrace(seeds))
  {
    assert InitialTrace(seeds).enqueued[..0] == [];
  }

  /** One iteration serves the head of the queue: it is requested exactly when `Served` requests it. */
  lemma StepServed(maxDepth: int, fetch: string -> Option<string>, t: Trace, visited: set<string>, links: seq<string>)
    requires ServedOk(maxDepth, fetch, t) == true && t.h < |t.enqueued| && t.h < |t.origins|
    requires visited == Urls(Successes(t.fetched, fetch))
    ensures ServedOk(maxDepth, fetch, Step(t, OutcomeOf(t.enqueued[t.h], visited, maxDepth, fetch), links)) == true
  {
    var outcome := OutcomeOf(t.enqueued[t.h], visited, maxDepth, fetch);
    StepShape(t, outcome, links);
    ServedNext(maxDepth, fetch, t, Step(t, outcome, links), visited);
  }

  /** A trace that moves the head on by one and requests the old head exactly when `Served` does keeps `ServedOk`. */
  lemma ServedNext(maxDepth: int, fetch: string -> Option<string>, t: Trace, t': Trace, visited: set<string>)
    requires ServedOk(maxDepth, fetch, t) == true && t.h < |t.enqueued|
    requires visited == Urls(Successes(t.fetched, fetch))
    requires t'.h == t.h + 1 && t'.h <= |t'.enqueued| && t'.enqueued[..t'.h] == t.enqueued[..t.h + 1]
    requires var node := t.enqueued[t.h];
             t'.fetched == if node.url in visited || node.depth > maxDepth then t.fetched else t.fetched + [node]
    ensures ServedOk(maxDepth, fetch, t') == true
  {
    ServedHead(maxDepth, fetch, t.enqueued, t.h, t.fetched, visited);
  }

  /** What one iteration does to the dequeued prefix of the queue and to the requests. */
  lemma StepShape(t: Trace, outcome: Outcome, links: seq<string>)
    requires t.h < |t.enqueued| && t.h < |t.origins|
    ensures var t' := Step(t, outcome, links);
            && t'.h == t.h + 1 && t'.h <= |t'.enqueued| && t'.enqueued[..t'.h] == t.enqueued[..t.h + 1]
            && t'.fetched == if outcome == Skipped then t.fetched else t.fetched + [t.enqueued[t.h]]
  {
    var t' := Step(t, outcome, links);
    assert t.enqueued <= t'.enqueued;
  }

  /** Serving the entry at `h` after the ones before it. */
  lemma ServedHead(maxDepth: int, fetch: string -> Option<string>, e: seq<CrawlNode>, h: nat,
                   fetched: seq<CrawlNode>, visited: set<string>)
    requires h < |e|
    requires fetched == Served(maxDepth, fetch, e[..h]) && visited == Urls(Successes(fetched, fetch))
    ensures Served(maxDepth, fetch, e[..h + 1]) == if e[h].url in visited || e[h].depth > maxDepth then fetched else fetched + [e[h]]
  {
    assert e[..h + 1] == e[..h] + [e[h]];
    ServedAppend(maxDepth, fetch, e[..h], e[h]);
    ServedUrls(maxDepth, fetch, e[..h]);
  }

  ghost predicate CrawlOk(seeds: seq<string>, maxDepth: int, fetch: string -> Option<string>, clean: string -> string, t: Trace,
                          visited: set<string>, log: seq<Write>, files: map<string, string>, sleeps: nat) {
    NamesOk(seeds, maxDepth, t) && BreadthOk(t) && RequestsOk(maxDepth, fetch, t, visited)
    && SavesOk(fetch, clean, t, visited, log, files, sleeps)
  }

  lemma InitialOk(seeds: seq<string>, maxDepth: int, fetch: string -> Option<string>, clean: string -> string)
    ensures CrawlOk(seeds, maxDepth, fetch, clean, InitialTrace(seeds), {}, [], map[], 0)
  {
  }

  lemma NamesAdvance(seeds: seq<string>, maxDepth: int, t: Trace)
    requires NamesOk(seeds, maxDepth, t) == true && t.h < |t.enqueued|
    ensures NamesOk(seeds, maxDepth, t.(h := t.h + 1, fetched := t.fetched + [t.enqueued[t.h]]))
    ensures NamesOk(seeds, maxDepth, AfterSkip(t))
  {
    ParentsLater(t.origins, t.parentIdx, t.h);
  }

  lemma ParentsLater(origins: seq<Origin>, parentIdx: seq<nat>, h: nat)
    requires ParentsBefore(origins, parentIdx, h) == true && h < |origins|
    ensures ParentsBefore(origins, parentIdx, h + 1)
  {
  }

  lemma BreadthAdvance(t: Trace)
    requires BreadthOk(t) == true && t.h < |t.enqueued|
    ensures BreadthOk(AfterSkip(t)) && BreadthOk(AfterEmpty(t))
  {
  }

  lemma RequestsSkip(maxDepth: int, fetch: string -> Option<string>, t: Trace, visited: set<string>)
    requires RequestsOk(maxDepth, fetch, t, visited) == true && BreadthOk(t) == true
    requires t.h < |t.enqueued|
    requires t.enqueued[t.h].url in visited || t.enqueued[t.h].depth > maxDepth
    ensures RequestsOk(maxDepth, fetch, AfterSkip(t), visited)
  {
    var t' := AfterSkip(t);
    assert t.enqueued[..t.h] <= t'.enqueued[..t'.h];
  }

  /** Requesting the head of the queue, whose URL is new or led to no content before. */
  lemma RequestsFetched(maxDepth: int, fetch: string -> Option<string>, t: Trace, visited: set<string>, visited': set<string>)
    requires RequestsOk(maxDepth, fetch, t, visited) == true && BreadthOk(t) == true
    requires t.h < |t.enqueued| && t.enqueued[t.h].depth <= maxDepth
    requires visited <= visited'
    requires forall i :: 0 <= i < |t.fetched| && t.fetched[i].url == t.enqueued[t.h].url ==> !HasContent(fetch(t.fetched[i].url))
    ensures RequestsOk(maxDepth, fetch, AfterEmpty(t), visited')
  {
    var t' := AfterEmpty(t);
    var node := t.enqueued[t.h];
    assert t.enqueued[..t.h] + [node] == t'.enqueued[..t'.h];
    assert t'.fetched[|t.fetched|] == node;
    DepthSortedAppend(t.fetched, node);
    RepeatsAppend(fetch, t.fetched, node);
  }

  /** A request no shallower than all earlier ones keeps the requests ordered by depth. */
  lemma DepthSortedAppend(fetched: seq<CrawlNode>, node: CrawlNode)
    requires forall i, j :: 0 <= i <= j < |fetched| ==> fetched[i].depth <= fetched[j].depth
    requires forall i :: 0 <= i < |fetched| ==> fetched[i].depth <= node.depth
    ensures forall i, j :: 0 <= i <= j < |fetched + [node]| ==> (fetched + [node])[i].depth <= (fetched + [node])[j].depth
  {
  }

  /** Requesting a URL again, where every earlier request for it gave no content, keeps the repeat rule. */
  lemma RepeatsAppend(fetch: string -> Option<string>, fetched: seq<CrawlNode>, node: CrawlNode)
    requires forall i, j :: 0 <= i < j < |fetched| && fetched[i].url == fetched[j].url ==> !HasContent(fetch(fetched[i].url))
    requires forall i :: 0 <= i < |fetched| && fetched[i].url == node.url ==> !HasContent(fetch(fetched[i].url))
    ensures var f := fetched + [node];
            forall i, j :: 0 <= i < j < |f| && f[i].url == f[j].url ==> !HasContent(fetch(f[i].url))
  {
  }

  lemma SavesEmpty(fetch: string -> Option<string>, clean: string -> string, t: Trace, visited: set<string>,
                   log: seq<Write>, files: map<string, string>, sleeps: nat)
    requires SavesOk(fetch, clean, t, visited, log, files, sleeps) == true
    requires t.h < |t.enqueued| && !HasContent(fetch(t.enqueued[t.h].url))
    ensures SavesOk(fetch, clean, AfterEmpty(t), visited, log, files, sleeps)
  {
    var t' := AfterEmpty(t);
    assert t'.fetched[..|t.fetched|] == t.fetched;
  }

  lemma RequestsSave(maxDepth: int, fetch: string -> Option<string>, t: Trace, visited: set<string>, links: seq<string>)
    requires RequestsOk(maxDepth, fetch, t, visited) == true && BreadthOk(t) == true
    requires t.h < |t.enqueued| && t.h < |t.origins| && t.enqueued[t.h].depth <= maxDepth
    requires forall i :: 0 <= i < |t.fetched| && t.fetched[i].url == t.enqueued[t.h].url ==> !HasContent(fetch(t.fetched[i].url))
    ensures RequestsOk(maxDepth, fetch, AfterSave(t, links), visited + {t.enqueued[t.h].url})
  {
    var node := t.enqueued[t.h];
    var more := ChildNodes(node, links);
    RequestsFetched(maxDepth, fetch, t, visited, visited + {node.url});
    assert forall k :: 0 <= k < |more| ==> more[k].depth == node.depth + 1;
    RequestsGrow(maxDepth, fetch, AfterEmpty(t), AfterSave(t, links), visited + {node.url}, more);
  }

  /** A URL not yet visited never gave content to an earlier request: otherwise it would have been saved. */
  lemma UnvisitedUnsaved(fetch: string -> Option<string>, t: Trace, visited: set<string>, url: string)
    requires t.saved == Successes(t.fetched, fetch) && visited == Urls(t.saved)
    requires url !in visited
    ensures forall i :: 0 <= i < |t.fetched| && t.fetched[i].url == url ==> !HasContent(fetch(t.fetched[i].url))
  {
    UrlsContain(t.saved);
    forall i | 0 <= i < |t.fetched| && t.fetched[i].url == url
      ensures !HasContent(fetch(t.fetched[i].url))
    {
    }
  }

  /** Queueing more entries, none shallower than anything requested, keeps the request record valid. */
  lemma RequestsGrow(maxDepth: int, fetch: string -> Option<string>, t: Trace, t': Trace, visited: set<string>, more: seq<CrawlNode>)
    requires RequestsOk(maxDepth, fetch, t, visited) == true
    requires t'.h == t.h && t'.fetched == t.fetched && t'.enqueued == t.enqueued + more
    requires forall i, k :: 0 <= i < |t.fetched| && 0 <= k < |more| ==> t.fetched[i].depth <= more[k].depth
    ensures RequestsOk(maxDepth, fetch, t', visited)
  {
    assert t'.enqueued[..t'.h] == t.enqueued[..t.h];
    if t.h == |t.enqueued| && t'.h < |t'.enqueued| {
      assert t'.enqueued[t'.h] == more[0];
    }
  }

  /** A rank-1 or rank-2 child's origin: one more rank, and `o` as parent. */
  lemma ChildOriginFacts(o: Origin, i: nat)
    requires i < 2
    ensures var c := ChildOrigin(o, i);
            && c.seed == o.seed && c.path == o.path + [if i == 0 then '1' else '2']
            && c.path != [] && Parent(c) == o
            && (IsRankPath(o.path) ==> IsRankPath(c.path))
  {
    assert DecimalString(1) == "1" && DecimalString(2) == "2";
    assert (o.path + DecimalString(i + 1))[..|o.path|] == o.path;
  }

  /**
   * Children of the origin at `h` are new: an equal earlier origin would have
   * the one at `h` as parent, at an index below `h`.
   */
  lemma FreshOrigins(origins: seq<Origin>, parentIdx: seq<nat>, h: nat, more: seq<Origin>)
    requires OriginsDistinct(origins) == true && ParentsBefore(origins, parentIdx, h) == true && h < |origins|
    requires forall k :: 0 <= k < |more| ==> more[k].path != [] && Parent(more[k]) == origins[h]
    requires OriginsDistinct(more) == true
    ensures OriginsDistinct(origins + more)
  {
  }

  lemma ParentsAppend(origins: seq<Origin>, parentIdx: seq<nat>, h: nat, more: seq<Origin>)
    requires ParentsBefore(origins, parentIdx, h) == true && h < |origins|
    requires forall k :: 0 <= k < |more| ==> more[k].path != [] && Parent(more[k]) == origins[h]
    ensures ParentsBefore(origins + more, parentIdx + Repeat(h, |more|), h + 1)
  {
    var os, ps := origins + more, parentIdx + Repeat(h, |more|);
    forall j | 0 <= j < |os| && os[j].path != [] ensures ps[j] < h + 1 && os[ps[j]] == Parent(os[j]) {
      if j < |origins| {
        assert ps[j] == parentIdx[j] && os[j] == origins[j] && os[ps[j]] == origins[parentIdx[j]];
      } else {
        assert ps[j] == h && os[j] == more[j - |origins|] && os[h] == origins[h];
      }
    }
  }

  lemma SeedsFirstAppend(seeds: seq<string>, enqueued: seq<CrawlNode>, more: seq<CrawlNode>)
    requires SeedsFirst(seeds, enqueued) == true
    ensures SeedsFirst(seeds, enqueued + more)
  {
    assert forall k :: 0 <= k < |seeds| ==> (enqueued + more)[k] == enqueued[k];
  }

  lemma ChildrenDeepAppend(seedCount: nat, maxDepth: int, enqueued: seq<CrawlNode>, more: seq<CrawlNode>)
    requires ChildrenDeep(seedCount, maxDepth, enqueued) == true && seedCount <= |enqueued|
    requires forall k :: 0 <= k < |more| ==> 1 <= more[k].depth <= maxDepth
    ensures ChildrenDeep(seedCount, maxDepth, enqueued + more)
  {
    var e := enqueued + more;
    forall j | seedCount <= j < |e| ensures 1 <= e[j].depth <= maxDepth {
      if j < |enqueued| { assert e[j] == enqueued[j]; } else { assert e[j] == more[j - |enqueued|]; }
    }
  }

  lemma AllNamedAppend(enqueued: seq<CrawlNode>, origins: seq<Origin>, seedCount: nat, more: seq<CrawlNode>, moreOrigins: seq<Origin>)
    requires AllNamed(enqueued, origins, seedCount) == true && |more| == |moreOrigins|
    requires forall k :: 0 <= k < |more| ==> NamedBy(more[k], moreOrigins[k], seedCount)
    ensures AllNamed(enqueued + more, origins + moreOrigins, seedCount)
  {
    var e, os := enqueued + more, origins + moreOrigins;
    forall j | 0 <= j < |e| ensures NamedBy(e[j], os[j], seedCount) {
      if j < |enqueued| {
        assert e[j] == enqueued[j] && os[j] == origins[j];
      } else {
        assert e[j] == more[j - |enqueued|] && os[j] == moreOrigins[j - |enqueued|];
      }
    }
  }

  lemma NamesSave(seeds: seq<string>, maxDepth: int, t: Trace, links: seq<string>)
    requires NamesOk(seeds, maxDepth, t) == true && t.h < |t.enqueued|
    requires |links| <= 2 && (links != [] ==> t.enqueued[t.h].depth < maxDepth)
    ensures NamesOk(seeds, maxDepth, AfterSave(t, links)) == true
  {
    var node, o := t.enqueued[t.h], t.origins[t.h];
    var more, moreOrigins := ChildNodes(node, links), ChildOrigins(o, |links|);
    ChildrenNamed(node, o, |seeds|, maxDepth, links);
    SeedsFirstAppend(seeds, t.enqueued, more);
    ChildrenDeepAppend(|seeds|, maxDepth, t.enqueued, more);
    AllNamedAppend(t.enqueued, t.origins, |seeds|, more, moreOrigins);
    FreshOrigins(t.origins, t.parentIdx, t.h, moreOrigins);
    ParentsAppend(t.origins, t.parentIdx, t.h, moreOrigins);
  }

  /** The (at most two) children queued for `node`: named after it with their rank appended, one level down, all different. */
  lemma ChildrenNamed(node: CrawlNode, o: Origin, seedCount: nat, maxDepth: int, links: seq<string>)
    requires NamedBy(node, o, seedCount)
    requires |links| <= 2 && (links != [] ==> node.depth < maxDepth)
    ensures var more, moreOrigins := ChildNodes(node, links), ChildOrigins(o, |links|);
            && |more| == |moreOrigins| == |links|
            && (forall k :: 0 <= k < |more| ==>
                  && NamedBy(more[k], moreOrigins[k], seedCount) && 1 <= more[k].depth <= maxDepth
                  && moreOrigins[k].path == o.path + [if k == 0 then '1' else '2']
                  && moreOrigins[k].path != [] && Parent(moreOrigins[k]) == o)
            && OriginsDistinct(moreOrigins)
  {
    var more, moreOrigins := ChildNodes(node, links), ChildOrigins(o, |links|);
    forall k | 0 <= k < |more|
      ensures NamedBy(more[k], moreOrigins[k], seedCount)
      ensures moreOrigins[k].path == o.path + [if k == 0 then '1' else '2']
      ensures moreOrigins[k].path != [] && Parent(moreOrigins[k]) == o
    {
      ChildOriginFacts(o, k);
      ChildNamed(node, o, seedCount, k, links[k]);
    }
    forall k, l | 0 <= k < l < |moreOrigins| ensures moreOrigins[k] != moreOrigins[l] {
      assert moreOrigins[k].path[|o.path|] != moreOrigins[l].path[|o.path|];
    }
  }

  lemma ChildNamed(node: CrawlNode, o: Origin, seedCount: nat, i: nat, link: string)
    requires NamedBy(node, o, seedCount) && i < 2
    ensures NamedBy(CrawlNode(link, ChildId(node.identifier, i + 1), node.depth + 1), ChildOrigin(o, i), seedCount)
  {
    ChildOriginFacts(o, i);
    assert DecimalString(i + 1) == [if i == 0 then '1' else '2'];
  }

  lemma BreadthSave(t: Trace, links: seq<string>)
    requires BreadthOk(t) == true && t.h < |t.enqueued| && t.h < |t.origins|
    ensures BreadthOk(AfterSave(t, links))
  {
    var t' := AfterSave(t, links);
    var d := t.enqueued[t.h].depth;
    forall j | 0 <= j < |t'.enqueued| ensures t'.enqueued[j].depth <= d + 1 {
      if j < t.h {
        assert t.enqueued[j].depth <= d;
      }
    }
    forall j | t'.h <= j < |t'.enqueued| ensures d <= t'.enqueued[j].depth {
      if j < |t.enqueued| {
        assert t.enqueued[t.h].depth <= t.enqueued[j].depth;
      }
    }
  }

  lemma SavesSave(fetch: string -> Option<string>, clean: string -> string, t: Trace, visited: set<string>,
                  log: seq<Write>, files: map<string, string>, sleeps: nat, links: seq<string>)
    requires SavesOk(fetch, clean, t, visited, log, files, sleeps) == true
    requires t.h < |t.enqueued| && t.h < |t.origins|
    requires t.enqueued[t.h].url !in visited && HasContent(fetch(t.enqueued[t.h].url))
    ensures var node := t.enqueued[t.h];
            var cleaned := clean(fetch(node.url).value);
            SavesOk(fetch, clean, AfterSave(t, links), visited + {node.url},
                    log + [Write(Filename(node), cleaned)], files[Filename(node) := cleaned], sleeps + 1)
  {
    var node := t.enqueued[t.h];
    var w := Write(Filename(node), clean(fetch(node.url).value));
    SuccessesAppend(t.fetched, node, fetch);
    PersistAppend(log, w);
    UrlsAppend(t.saved, node);
    LogAppend(fetch, clean, t.saved, log, node);
    DistinctAppend(t.saved, node);
  }

  /** The log holds one write per saved entry, in order; saving `node` appends its write. */
  lemma LogAppend(fetch: string -> Option<string>, clean: string -> string, saved: seq<CrawlNode>, log: seq<Write>, node: CrawlNode)
    requires |log| == |saved| && HasContent(fetch(node.url))
    requires forall i :: 0 <= i < |saved| ==>
               HasContent(fetch(saved[i].url)) && log[i] == Write(Filename(saved[i]), clean(fetch(saved[i].url).value))
    ensures var saved', log' := saved + [node], log + [Write(Filename(node), clean(fetch(node.url).value))];
            forall i :: 0 <= i < |saved'| ==>
              HasContent(fetch(saved'[i].url)) && log'[i] == Write(Filename(saved'[i]), clean(fetch(saved'[i].url).value))
  {
  }

  /** Saving an entry whose URL is not among the saved ones keeps the saved URLs distinct. */
  lemma DistinctAppend(saved: seq<CrawlNode>, node: CrawlNode)
    requires forall i, j :: 0 <= i < j < |saved| ==> saved[i].url != saved[j].url
    requires node.url !in Urls(saved)
    ensures forall i, j :: 0 <= i < j < |saved + [node]| ==> (saved + [node])[i].url != (saved + [node])[j].url
  {
    UrlsContain(saved);
  }

  lemma SuccessesAppend(fetched: seq<CrawlNode>, node: CrawlNode, fetch: string -> Option<string>)
    ensures Successes(fetched + [node], fetch)
            == if HasContent(fetch(node.url)) then Successes(fetched, fetch) + [node] else Successes(fetched, fetch)
  {
    assert (fetched + [node])[..|fetched|] == fetched;
  }

  lemma PersistAppend(log: seq<Write>, w: Write)
    ensures Persist(log + [w]) == Persist(log)[w.filename := w.content]
  {
    assert (log + [w])[..|log|] == log;
  }

  lemma UrlsAppend(saved: seq<CrawlNode>, node: CrawlNode)
    ensures Urls(saved + [node]) == Urls(saved) + {node.url}
  {
  }

  /** What happens to the entry taken from the queue. */
  datatype Outcome = Skipped | NoContent | Saved

  /**
   * Skipped when its URL was visited or it is deeper than `maxDepth`
   * (script.py:54-55), NoContent when the page is missing or empty
   * (script.py:59-61), otherwise Saved.
   */
  function OutcomeOf(node: CrawlNode, visited: set<string>, maxDepth: int, fetch: string -> Option<string>): Outcome
  {
    if node.url in visited || node.depth > maxDepth then Skipped
    else if !HasContent(fetch(node.url)) then NoContent
    else Saved
  }

  function Step(t: Trace, outcome: Outcome, links: seq<string>): Trace
    requires t.h < |t.enqueued| && t.h < |t.origins|
  {
    match outcome
    case Skipped => AfterSkip(t)
    case NoContent => AfterEmpty(t)
    case Saved => AfterSave(t, links)
  }

  /**
   * What one iteration does to `visited`, `log`, `files` and `sleeps` when
   * the entry `node` has the given outcome and `links` of its links are queued.
   */
  ghost predicate StepEffect(maxDepth: int, fetch: string -> Option<string>, clean: string -> string, node: CrawlNode,
                             outcome: Outcome, links: seq<string>,
                             visited: set<string>, log: seq<Write>, files: map<string, string>, sleeps: nat,
                             visited': set<string>, log': seq<Write>, files': map<string, string>, sleeps': nat)
    requires outcome == Saved ==> fetch(node.url).Some?
  {
    if outcome == Saved then
      var cleaned := clean(fetch(node.url).value);
      && visited' == visited + {node.url} && log' == log + [Write(Filename(node), cleaned)]
      && files' == files[Filename(node) := cleaned] && sleeps' == sleeps + 1
      && |links| <= 2 && (links != [] ==> node.depth < maxDepth)
    else
      visited' == visited && log' == log && files' == files && sleeps' == sleeps && links == []
  }

  lemma StepNames(seeds: seq<string>, maxDepth: int, t: Trace, outcome: Outcome, links: seq<string>)
    requires NamesOk(seeds, maxDepth, t) == true && t.h < |t.enqueued|
    requires outcome == Saved ==> |links| <= 2 && (links != [] ==> t.enqueued[t.h].depth < maxDepth)
    ensures t.h < |t.origins| && NamesOk(seeds, maxDepth, Step(t, outcome, links)) == true
  {
    match outcome
    case Skipped =>
      NamesAdvance(seeds, maxDepth, t);
      assert Step(t, Skipped, links) == AfterSkip(t);
    case NoContent =>
      NamesAdvance(seeds, maxDepth, t);
      assert Step(t, NoContent, links) == AfterEmpty(t);
    case Saved =>
      NamesSave(seeds, maxDepth, t, links);
      assert Step(t, Saved, links) == AfterSave(t, links);
  }

  lemma StepBreadth(t: Trace, outcome: Outcome, links: seq<string>)
    requires BreadthOk(t) == true && t.h < |t.enqueued| && t.h < |t.origins|
    ensures BreadthOk(Step(t, outcome, links)) == true
  {
    match outcome
    case Skipped =>
      BreadthAdvance(t);
      assert Step(t, Skipped, links) == AfterSkip(t);
    case NoContent =>
      BreadthAdvance(t);
      assert Step(t, NoContent, links) == AfterEmpty(t);
    case Saved =>
      BreadthSave(t, links);
      assert Step(t, Saved, links) == AfterSave(t, links);
  }

  lemma StepRequests(maxDepth: int, fetch: string -> Option<string>, t: Trace, visited: set<string>,
                     links: seq<string>, visited': set<string>)
    requires RequestsOk(maxDepth, fetch, t, visited) == true && BreadthOk(t) == true
    requires t.h < |t.enqueued| && t.h < |t.origins|
    requires t.saved == Successes(t.fetched, fetch) && visited == Urls(t.saved)
    requires var node := t.enqueued[t.h];
             if OutcomeOf(node, visited, maxDepth, fetch) == Saved then visited' == visited + {node.url} else visited' == visited
    ensures RequestsOk(maxDepth, fetch, Step(t, OutcomeOf(t.enqueued[t.h], visited, maxDepth, fetch), links), visited') == true
  {
    var node := t.enqueued[t.h];
    match OutcomeOf(node, visited, maxDepth, fetch)
    case Skipped =>
      RequestsSkip(maxDepth, fetch, t, visited);
      assert Step(t, Skipped, links) == AfterSkip(t);
    case NoContent =>
      UnvisitedUnsaved(fetch, t, visited, node.url);
      RequestsFetched(maxDepth, fetch, t, visited, visited);
      assert Step(t, NoContent, links) == AfterEmpty(t);
    case Saved =>
      UnvisitedUnsaved(fetch, t, visited, node.url);
      RequestsSave(maxDepth, fetch, t, visited, links);
      assert Step(t, Saved, links) == AfterSave(t, links);
  }

  lemma StepSaves(maxDepth: int, fetch: string -> Option<string>, clean: string -> string, t: Trace,
                  visited: set<string>, log: seq<Write>, files: map<string, string>, sleeps: nat,
                  links: seq<string>, visited': set<string>, log': seq<Write>, files': map<string, string>, sleeps': nat)
    requires SavesOk(fetch, clean, t, visited, log, files, sleeps) == true
    requires t.h < |t.enqueued| && t.h < |t.origins|
    requires var node := t.enqueued[t.h];
             StepEffect(maxDepth, fetch, clean, node, OutcomeOf(node, visited, maxDepth, fetch), links,
                        visited, log, files, sleeps, visited', log', files', sleeps')
    ensures SavesOk(fetch, clean, Step(t, OutcomeOf(t.enqueued[t.h], visited, maxDepth, fetch), links),
                    visited', log', files', sleeps') == true
  {
    var node := t.enqueued[t.h];
    match OutcomeOf(node, visited, maxDepth, fetch)
    case Skipped =>
      assert Step(t, Skipped, links) == AfterSkip(t);
    case NoContent =>
      SavesEmpty(fetch, clean, t, visited, log, files, sleeps);
      assert Step(t, NoContent, links) == AfterEmpty(t);
    case Saved =>
      SavesSave(fetch, clean, t, visited, log, files, sleeps, links);
      assert Step(t, Saved, links) == AfterSave(t, links);
  }

  /** One iteration takes the head of the queue out and appends the entries for the links it queued. */
  lemma StepQueue(maxDepth: int, fetch: string -> Option<string>, clean: string -> string, t: Trace, outcome: Outcome,
                  visited: set<string>, log: seq<Write>, files: map<string, string>, sleeps: nat,
                  links: seq<string>, visited': set<string>, log': seq<Write>, files': map<string, string>, sleeps': nat)
    requires t.h < |t.enqueued| && t.h < |t.origins| && (outcome == Saved ==> fetch(t.enqueued[t.h].url).Some?)
    requires StepEffect(maxDepth, fetch, clean, t.enqueued[t.h], outcome, links,
                        visited, log, files, sleeps, visited', log', files', sleeps') == true
    ensures Step(t, outcome, links).h == t.h + 1
    ensures Step(t, outcome, links).enqueued == t.enqueued + ChildNodes(t.enqueued[t.h], links)
  {
    if outcome != Saved {
      assert ChildNodes(t.enqueued[t.h], links) == [];
    }
  }

  /** One iteration of the loop keeps the crawl invariant, whatever its outcome. */
  lemma StepOk(seeds: seq<string>, maxDepth: int, fetch: string -> Option<string>, clean: string -> string, t: Trace,
               visited: set<string>, log: seq<Write>, files: map<string, string>, sleeps: nat,
               links: seq<string>, visited': set<string>, log': seq<Write>, files': map<string, string>, sleeps': nat)
    requires CrawlOk(seeds, maxDepth, fetch, clean, t, visited, log, files, sleeps) == true
    requires t.h < |t.enqueued|
    requires var node := t.enqueued[t.h];
             StepEffect(maxDepth, fetch, clean, node, OutcomeOf(node, visited, maxDepth, fetch), links,
                        visited, log, files, sleeps, visited', log', files', sleeps') == true
    ensures t.h < |t.origins|
    ensures var t' := Step(t, OutcomeOf(t.enqueued[t.h], visited, maxDepth, fetch), links);
            t'.h == t.h + 1 && t'.enqueued == t.enqueued + ChildNodes(t.enqueued[t.h], links)
    ensures CrawlOk(seeds, maxDepth, fetch, clean, Step(t, OutcomeOf(t.enqueued[t.h], visited, maxDepth, fetch), links),
                    visited', log', files', sleeps') == true
  {
    var outcome := OutcomeOf(t.enqueued[t.h], visited, maxDepth, fetch);
    StepNames(seeds, maxDepth, t, outcome, links);
    StepBreadth(t, outcome, links);
    StepRequests(maxDepth, fetch, t, visited, links, visited');
    StepSaves(maxDepth, fetch, clean, t, visited, log, files, sleeps, links, visited', log', files', sleeps');
    StepQueue(maxDepth, fetch, clean, t, outcome, visited, log, files, sleeps, links, visited', log', files', sleeps');
  }

  lemma QueueAdvance(e: seq<CrawlNode>, h: nat, more: seq<CrawlNode>)
    requires h < |e|
    ensures (e + more)[h + 1..] == e[h..][1..] + more
  {
  }

  /** Every queued entry's name is well formed; with at most ten seeds, no two are equal. */
  lemma NamesFinal(seeds: seq<string>, maxDepth: int, t: Trace)
    requires NamesOk(seeds, maxDepth, t)
    ensures forall j :: 0 <= j < |t.enqueued| ==> WellNamed(t.enqueued[j], |seeds|)
    ensures |seeds| <= 10 ==> forall i, j :: 0 <= i < j < |t.enqueued| ==> t.enqueued[i].identifier != t.enqueued[j].identifier
  {
    forall j | 0 <= j < |t.enqueued| ensures WellNamed(t.enqueued[j], |seeds|) {
      NamedWell(t.enqueued[j], t.origins[j], |seeds|);
    }
    if |seeds| <= 10 {
      forall i, j | 0 <= i < j < |t.enqueued| ensures t.enqueued[i].identifier != t.enqueued[j].identifier {
        if t.enqueued[i].identifier == t.enqueued[j].identifier {
          var oi, oj := t.origins[i], t.origins[j];
          UniqueUpToTenSeeds(oi.seed, oi.path, oj.seed, oj.path);
        }
      }
    }
  }

  lemma NamedWell(node: CrawlNode, o: Origin, seedCount: nat)
    requires NamedBy(node, o, seedCount)
    ensures WellNamed(node, seedCount)
  {
    var id := node.identifier;
    assert id[..|id| - node.depth] == SeedId(o.seed);
    assert id[|id| - node.depth..] == o.path;
  }

  lemma FilenameInjective(a: CrawlNode, b: CrawlNode)
    requires Filename(a) == Filename(b)
    ensures a.identifier == b.identifier
  {
    assert a.identifier == Filename(a)[..|Filename(a)| - 4];
    assert b.identifier == Filename(b)[..|Filename(b)| - 4];
  }

  /** With distinct names, no saved text is overwritten by a later one. */
  lemma FilesFinal(saved: seq<CrawlNode>, enqueued: seq<CrawlNode>, log: seq<Write>, files: map<string, string>)
    requires |log| == |saved| && forall i :: 0 <= i < |saved| ==> log[i].filename == Filename(saved[i])
    requires forall n :: n in saved ==> n in enqueued
    requires forall i, j :: 0 <= i < j < |saved| ==> saved[i].url != saved[j].url
    requires forall i, j :: 0 <= i < j < |enqueued| ==> enqueued[i].identifier != enqueued[j].identifier
    requires files == Persist(log)
    ensures |files| == |log| && forall i :: 0 <= i < |log| ==> log[i].filename in files && files[log[i].filename] == log[i].content
  {
    SavedFilenamesDistinct(saved, enqueued, log);
    NothingOverwritten(log);
  }

  /** Whatever was saved was requested, and whatever was requested had been queued. */
  lemma SavedQueued(saved: seq<CrawlNode>, fetched: seq<CrawlNode>, enqueued: seq<CrawlNode>, h: nat)
    requires h <= |enqueued|
    requires forall n :: n in saved ==> n in fetched
    requires forall i :: 0 <= i < |fetched| ==> fetched[i] in enqueued[..h]
    ensures forall n :: n in saved ==> n in enqueued
  {
    forall n | n in saved ensures n in enqueued {
      var x :| 0 <= x < |fetched| && fetched[x] == n;
      assert enqueued[..h] <= enqueued;
    }
  }

  /**
   * When all queued identifiers are different (as with at most ten seeds),
   * saved entries with distinct URLs are distinct queued entries, so their
   * files have distinct names.  From eleven seeds on this premise can fail:
   * see `EleventhSeedCollides`.
   */
  lemma SavedFilenamesDistinct(saved: seq<CrawlNode>, enqueued: seq<CrawlNode>, log: seq<Write>)
    requires |log| == |saved|
    requires forall i :: 0 <= i < |saved| ==> saved[i] in enqueued && log[i].filename == Filename(saved[i])
    requires forall i, j :: 0 <= i < j < |saved| ==> saved[i].url != saved[j].url
    requires forall i, j :: 0 <= i < j < |enqueued| ==> enqueued[i].identifier != enqueued[j].identifier
    ensures forall i, j :: 0 <= i < j < |log| ==> log[i].filename != log[j].filename
  {
    forall i, j | 0 <= i < j < |log| ensures log[i].filename != log[j].filename {
      var a, b := saved[i], saved[j];
      var p :| 0 <= p < |enqueued| && enqueued[p] == a;
      var q :| 0 <= q < |enqueued| && enqueued[q] == b;
      if log[i].filename == log[j].filename {
        FilenameInjective(a, b);
      }
    }
  }

  /** The queue of a finished crawl: seeds first, then links, named well and ordered by depth. */
  ghost predicate QueuedOk(seeds: seq<string>, maxDepth: int, enqueued: seq<CrawlNode>)
  {
    // the seeds are queued first, at depth 0, and named url1, url2, ...
    && |seeds| <= |enqueued|
    && (forall k :: 0 <= k < |seeds| ==> enqueued[k] == CrawlNode(seeds[k], SeedId(k), 0))
    // every other entry is a link, queued one level down and never deeper than maxDepth
    && (forall j :: |seeds| <= j < |enqueued| ==> 1 <= enqueued[j].depth <= maxDepth)
    // names
    && (forall j :: 0 <= j < |enqueued| ==> WellNamed(enqueued[j], |seeds|))
    && (|seeds| <= 10 ==> forall i, j :: 0 <= i < j < |enqueued| ==> enqueued[i].identifier != enqueued[j].identifier)
    // breadth first: entries are queued, and so taken out, by non-decreasing depth
    && (forall i, j :: 0 <= i <= j < |enqueued| ==> enqueued[i].depth <= enqueued[j].depth)
  }

  /** The requests of a finished crawl. */
  ghost predicate FetchedOk(maxDepth: int, fetch: string -> Option<string>, enqueued: seq<CrawlNode>, fetched: seq<CrawlNode>,
                            visited: set<string>)
  {
    // only entries within maxDepth, shallow ones first, a URL again only after it gave no content
    && (forall i :: 0 <= i < |fetched| ==> fetched[i] in enqueued && fetched[i].depth <= maxDepth)
    && (forall i, j :: 0 <= i <= j < |fetched| ==> fetched[i].depth <= fetched[j].depth)
    && (forall i, j :: 0 <= i < j < |fetched| && fetched[i].url == fetched[j].url ==> !HasContent(fetch(fetched[i].url)))
    // every entry within maxDepth was requested, or its URL is among the visited ones
    && (forall j :: 0 <= j < |enqueued| && enqueued[j].depth <= maxDepth ==> enqueued[j].url in visited || enqueued[j] in fetched)
    // first in, first out: the requests are those made taking the entries out in the order they were queued
    && fetched == Served(maxDepth, fetch, enqueued)
  }

  /** The saves of a finished crawl: one per request that gave content, each URL at most once, one pause each. */
  ghost predicate SavedOk(seedCount: nat, fetch: string -> Option<string>, clean: string -> string,
                          fetched: seq<CrawlNode>, saved: seq<CrawlNode>,
                          log: seq<Write>, files: map<string, string>, visited: set<string>, sleeps: nat)
  {
    && saved == Successes(fetched, fetch)
    && |log| == |saved|
    && (forall i :: 0 <= i < |saved| ==>
          HasContent(fetch(saved[i].url)) && log[i] == Write(Filename(saved[i]), clean(fetch(saved[i].url).value)))
    && (forall i, j :: 0 <= i < j < |saved| ==> saved[i].url != saved[j].url)
    && visited == Urls(saved)
    && files == Persist(log)
    && (seedCount <= 10 ==> |files| == |log| && forall i :: 0 <= i < |log| ==> log[i].filename in files && files[log[i].filename] == log[i].content)
    && sleeps == |saved|
  }

  /**
   * What `web_crawler` has done once its queue is empty, for the entries it
   * queued (`enqueued`), requested (`fetched`) and saved (`saved`), in order.
   */
  ghost predicate Crawled(seeds: seq<string>, maxDepth: int, fetch: string -> Option<string>, clean: string -> string,
                          join: (string, string) -> string,
                          enqueued: seq<CrawlNode>, fetched: seq<CrawlNode>, saved: seq<CrawlNode>, children: seq<seq<string>>,
                          log: seq<Write>, files: map<string, string>, visited: set<string>, sleeps: nat)
  {
    QueuedOk(seeds, maxDepth, enqueued) && LinkedOk(seeds, maxDepth, fetch, join, enqueued, saved, children)
    && FetchedOk(maxDepth, fetch, enqueued, fetched, visited)
    && SavedOk(|seeds|, fetch, clean, fetched, saved, log, files, visited, sleeps)
  }

  lemma QueuedDone(seeds: seq<string>, maxDepth: int, t: Trace)
    requires NamesOk(seeds, maxDepth, t) && BreadthOk(t)
    ensures QueuedOk(seeds, maxDepth, t.enqueued)
  {
    NamesFinal(seeds, maxDepth, t);
  }

  lemma FetchedDone(maxDepth: int, fetch: string -> Option<string>, t: Trace, visited: set<string>)
    requires RequestsOk(maxDepth, fetch, t, visited) && ServedOk(maxDepth, fetch, t) && t.h == |t.enqueued|
    ensures FetchedOk(maxDepth, fetch, t.enqueued, t.fetched, visited)
  {
    assert t.enqueued[..t.h] == t.enqueued;
  }

  lemma SavedDone(seeds: seq<string>, maxDepth: int, fetch: string -> Option<string>, clean: string -> string, t: Trace,
                  visited: set<string>, log: seq<Write>, files: map<string, string>, sleeps: nat)
    requires NamesOk(seeds, maxDepth, t) && RequestsOk(maxDepth, fetch, t, visited)
    requires SavesOk(fetch, clean, t, visited, log, files, sleeps)
    ensures SavedOk(|seeds|, fetch, clean, t.fetched, t.saved, log, files, visited, sleeps)
  {
    if |seeds| <= 10 {
      NamesFinal(seeds, maxDepth, t);
      forall i | 0 <= i < |t.saved| ensures log[i].filename == Filename(t.saved[i]) {
      }
      SavedQueued(t.saved, t.fetched, t.enqueued, t.h);
      FilesFinal(t.saved, t.enqueued, log, files);
    }
  }

  /** Once every queued entry has been taken out, the invariant gives what `web_crawler` promises. */
  lemma CrawlDone(seeds: seq<string>, maxDepth: int, fetch: string -> Option<string>, clean: string -> string,
                  join: (string, string) -> string, t: Trace,
                  visited: set<string>, log: seq<Write>, files: map<string, string>, sleeps: nat)
    requires CrawlOk(seeds, maxDepth, fetch, clean, t, visited, log, files, sleeps)
    requires LinkedOk(seeds, maxDepth, fetch, join, t.enqueued, t.saved, t.children)
    requires ServedOk(maxDepth, fetch, t) && t.h == |t.enqueued|
    ensures Crawled(seeds, maxDepth, fetch, clean, join, t.enqueued, t.fetched, t.saved, t.children, log, files, visited, sleeps)
  {
    QueuedDone(seeds, maxDepth, t);
    FetchedDone(maxDepth, fetch, t, visited);
    SavedDone(seeds, maxDepth, fetch, clean, t, visited, log, files, sleeps);
  }
}

module Crawler {
  import opened Wrappers
  import opened Cleaner
  import opened Links
  import opened Identifiers
  import opened Persistence
  import opened CrawlState

  /**
   * One pass of the loop body of `web_crawler` (script.py:51-72) for the
   * entry `node` already taken from the queue: skip it, give up on it for
   * lack of content, or save its cleaned text, queue up to two of its links
   * one level down (only when shallower than `maxDepth`) and pause.
   */
  method Visit(clean: string -> string, node: CrawlNode, maxDepth: int, fetch: string -> Option<string>, join: (string, string) -> string,
               visited: set<string>, log: seq<Write>, files: map<string, string>, sleeps: nat, queue: seq<CrawlNode>)
    returns (visited': set<string>, log': seq<Write>, files': map<string, string>, sleeps': nat, queue': seq<CrawlNode>,
             ghost links: seq<string>)
    ensures queue' == queue + ChildNodes(node, links)
    ensures visited <= visited'
    ensures StepEffect(maxDepth, fetch, clean, node, OutcomeOf(node, visited, maxDepth, fetch), links,
                       visited, log, files, sleeps, visited', log', files', sleeps')
    ensures OutcomeOf(node, visited, maxDepth, fetch) == Saved ==> LinksFollowed(maxDepth, fetch, join, node, links)
  {
    visited', log', files', sleeps', queue', links := visited, log, files, sleeps, queue, [];
    if node.url in visited || node.depth > maxDepth {
      return;
    }
    var page := fetch(node.url);
    if !HasContent(page) {
      return;
    }
    var cleaned := clean(page.value);
    log' := log + [Write(Filename(node), cleaned)];
    files' := files[Filename(node) := cleaned];
    visited' := visited + {node.url};

    var found: seq<string> := [];
    if node.depth < maxDepth {
      found := ExtractPageLinks(page.value, node.url, 2, join);
    }
    for i := 0 to |found|
      invariant queue' == queue + ChildNodes(node, found[..i])
    {
      assert ChildNodes(node, found[..i + 1]) == ChildNodes(node, found[..i]) + [CrawlNode(found[i], ChildId(node.identifier, i + 1), node.depth + 1)];
      queue' := queue' + [CrawlNode(found[i], ChildId(node.identifier, i + 1), node.depth + 1)];
    }
    assert found[..|found|] == found;
    links := found;
    sleeps' := sleeps + 1;
  }

  /**
   * The loop of `web_crawler` (script.py:47-72), for any function `clean`
   * that turns a page into the text saved for it.
   */
  method Crawl(clean: string -> string, seeds: seq<string>, maxDepth: int, fetch: string -> Option<string>,
               join: (string, string) -> string)
    returns (log: seq<Write>, files: map<string, string>, visited: set<string>, sleeps: nat,
             ghost enqueued: seq<CrawlNode>, ghost fetched: seq<CrawlNode>, ghost saved: seq<CrawlNode>,
             ghost children: seq<seq<string>>)
    ensures Crawled(seeds, maxDepth, fetch, clean, join, enqueued, fetched, saved, children, log, files, visited, sleeps)
  {
    var queue := SeedNodes(seeds);
    visited := {};
    log, files, sleeps := [], map[], 0;
    ghost var t := InitialTrace(seeds);
    InitialOk(seeds, maxDepth, fetch, clean);
    InitialLinked(seeds, maxDepth, fetch, join);
    InitialServed(seeds, maxDepth, fetch);

    while queue != []
      invariant CrawlOk(seeds, maxDepth, fetch, clean, t, visited, log, files, sleeps) == true
      invariant LinkedOk(seeds, maxDepth, fetch, join, t.enqueued, t.saved, t.children) == true
      invariant ServedOk(maxDepth, fetch, t) == true
      invariant queue == t.enqueued[t.h..]
      decreases QueueWeight(queue, maxDepth)
    {
      var node := queue[0];
      queue := queue[1..];
      ghost var visited0, log0, files0, sleeps0, q0 := visited, log, files, sleeps, queue;
      ghost var links;
      visited, log, files, sleeps, queue, links := Visit(clean, node, maxDepth, fetch, join, visited, log, files, sleeps, queue);

      QueueWeightAppend(q0, ChildNodes(node, links), maxDepth);
      if links != [] {
        ChildrenLighter(node, links, maxDepth);
      }
      StepOk(seeds, maxDepth, fetch, clean, t, visited0, log0, files0, sleeps0, links, visited, log, files, sleeps);
      StepLinked(seeds, maxDepth, fetch, join, t, OutcomeOf(node, visited0, maxDepth, fetch), links);
      StepServed(maxDepth, fetch, t, visited0, links);
      QueueAdvance(t.enqueued, t.h, ChildNodes(node, links));
      t := Step(t, OutcomeOf(node, visited0, maxDepth, fetch), links);
    }

    CrawlDone(seeds, maxDepth, fetch, clean, join, t, visited, log, files, sleeps);
    enqueued, fetched, saved, children := t.enqueued, t.fetched, t.saved, t.children;
  }

  /** `web_crawler(seed_urls, max_depth)` (script.py:46-72), saving the text `clean_html` makes of each page. */
  method WebCrawler(seeds: seq<string>, maxDepth: int, fetch: string -> Option<string>, join: (string, string) -> string)
    returns (log: seq<Write>, files: map<string, string>, visited: set<string>, sleeps: nat,
             ghost enqueued: seq<CrawlNode>, ghost fetched: seq<CrawlNode>, ghost saved: seq<CrawlNode>,
             ghost children: seq<seq<string>>)
    // the seeds are queued first, at depth 0, and named url1, url2, ...
    ensures |seeds| <= |enqueued|
    ensures forall k :: 0 <= k < |seeds| ==> enqueued[k] == CrawlNode(seeds[k], SeedId(k), 0)
    // every other entry is a link, queued one level down and never deeper than maxDepth
    ensures forall j :: |seeds| <= j < |enqueued| ==> 1 <= enqueued[j].depth <= maxDepth
    // the entries after the seeds are, saved page by saved page, the links extract_links gave for that page
    ensures |children| == |saved| && enqueued == SeedNodes(seeds) + QueuedChildren(saved, children)
    ensures forall i :: 0 <= i < |saved| ==> LinksFollowed(maxDepth, fetch, join, saved[i], children[i])
    // names
    ensures forall j :: 0 <= j < |enqueued| ==> WellNamed(enqueued[j], |seeds|)
    ensures |seeds| <= 10 ==> forall i, j :: 0 <= i < j < |enqueued| ==> enqueued[i].identifier != enqueued[j].identifier
    // breadth first: entries are queued, and so taken out, by non-decreasing depth
    ensures forall i, j :: 0 <= i <= j < |enqueued| ==> enqueued[i].depth <= enqueued[j].depth
    // requests: only entries within maxDepth, shallow ones first, a URL again only after it gave no content
    ensures forall i :: 0 <= i < |fetched| ==> fetched[i] in enqueued && fetched[i].depth <= maxDepth
    ensures forall i, j :: 0 <= i <= j < |fetched| ==> fetched[i].depth <= fetched[j].depth
    ensures forall i, j :: 0 <= i < j < |fetched| && fetched[i].url == fetched[j].url ==> !HasContent(fetch(fetched[i].url))
    // every entry within maxDepth was requested, or its URL is among the visited ones
    ensures forall j :: 0 <= j < |enqueued| && enqueued[j].depth <= maxDepth ==> enqueued[j].url in visited || enqueued[j] in fetched
    // first in, first out: the requests are those made taking the entries out in the order they were queued
    ensures fetched == Served(maxDepth, fetch, enqueued)
    // saves: one per request that gave content, each URL at most once
    ensures saved == Successes(fetched, fetch)
    ensures |log| == |saved|
    ensures forall i :: 0 <= i < |saved| ==>
              HasContent(fetch(saved[i].url)) && log[i] == Write(Filename(saved[i]), CleanHtml(fetch(saved[i].url).value))
    ensures forall i, j :: 0 <= i < j < |saved| ==> saved[i].url != saved[j].url
    ensures visited == Urls(saved)
    ensures files == Persist(log)
    ensures |seeds| <= 10 ==> |files| == |log| && forall i :: 0 <= i < |log| ==> log[i].filename in files && files[log[i].filename] == log[i].content
    // one pause per saved page
    ensures sleeps == |saved|
  {
    log, files, visited, sleeps, enqueued, fetched, saved, children := Crawl(CleanHtml, seeds, maxDepth, fetch, join);
  }
}
