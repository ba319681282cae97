/**
 * The SiteMap object and the crawl that fills it (sitemap/sitemap.go).
 *
 * The root pointer and the node graph become the arena `nodes` (an empty
 * arena is a nil RootNode); the package-level index SitemapURLSIndexed
 * becomes the field `index`, one per crawl. The ghost `parent` names the
 * one parent each node has. The methods that change the sitemap are
 * proved to leave the function of SitemapSpec they model applied to the
 * old state; the queries are tied to the search of SitemapTree and the
 * rendering of SitemapNode.
 */
module Sitemap {
  import opened Urls
  import opened Util
  import opened Fetch
  import opened SitemapNode
  import opened SitemapTree
  import opened SitemapSpec

  class SiteMap {
    /** The URL library functions the crawl calls. */
    const env: Env
    var nodes: seq<Node>
    var index: map<string, nat>
    var rootTLDPlusOne: string
    var depth: int
    ghost var parent: seq<nat>

    ghost predicate Valid()
      reads this
    {
      WellFormed(env, Arena(nodes, index), parent)
    }

    function State(): Arena
      reads this
    {
      Arena(nodes, index)
    }

    predicate HasRoot()
      reads this
    {
      |nodes| > 0
    }

    /** A SiteMap{} with its Depth set: no root, nothing indexed, no domain. */
    constructor (env: Env, depth: int)
      ensures Valid() && this.env == env
      ensures nodes == [] && index == map[] && rootTLDPlusOne == "" && this.depth == depth
    {
      this.env := env;
      nodes := [];
      index := map[];
      rootTLDPlusOne := "";
      this.depth := depth;
      parent := [];
    }

    /**
     * SetRootNode: refused, changing nothing, when a root exists. Otherwise
     * the root is always set; the domain is recorded and the root indexed
     * only when its registrable domain is known, which is what the result
     * reports. The state left is RootArena.
     */
    method SetRootNode(baseURL: Url) returns (ok: bool)
      requires Valid()
      modifies this
      ensures Valid()
      ensures old(HasRoot()) ==> !ok && unchanged(this)
      ensures !old(HasRoot()) ==>
                && nodes == [Node(baseURL, [])]
                && depth == old(depth)
                && (ok <==> env.tldPlusOne(Hostname(baseURL)).Some?)
                && (ok ==> rootTLDPlusOne == env.tldPlusOne(Hostname(baseURL)).value && index == map[env.render(baseURL) := 0])
                && (!ok ==> rootTLDPlusOne == old(rootTLDPlusOne) && index == map[])
                && State() == RootArena(env, baseURL)
                && (ok ==> rootTLDPlusOne == RootDomain(env, baseURL))
    {
      if |nodes| > 0 {
        return false;
      }
      nodes := [Node(baseURL, [])];
      parent := [0];
      match env.tldPlusOne(Hostname(baseURL))
      case None =>
        return false;
      case Some(t) =>
        rootTLDPlusOne := t;
        index := index[env.render(baseURL) := 0];
        return true;
    }

    /**
     * AddLeaf(from, to): exactly AddLeafSpec on the old state, keeping the
     * sitemap a tree with an exact index.
     */
    method AddLeaf(from: Url, to: Url) returns (added: bool, err: Option<AddError>)
      requires Valid() && (HasRoot() || Hostname(to) != "")
      modifies this
      ensures Valid()
      ensures var r := AddLeafSpec(env, old(State()), from, to);
              added == r.added && err == r.err && State() == r.arena
      ensures rootTLDPlusOne == old(rootTLDPlusOne) && depth == old(depth)
    {
      var target := to;
      if Hostname(to) == "" {
        target := env.resolve(nodes[0].url, to);
      }
      if |nodes| == 0 {
        return false, Some(NoRootNode);
      }
      var fromKey := env.render(from);
      if fromKey !in index {
        return false, Some(FromNotInSitemap(fromKey));
      }
      var toKey := env.render(target);
      if toKey in index {
        return false, None;
      }
      var fromNode := index[fromKey];
      var newNode := |nodes|;
      AddLeafKeepsWellFormed(env, State(), parent, from, to);
      nodes := nodes[fromNode := nodes[fromNode].AddLeaf(newNode)] + [Node(target, [])];
      index := index[toKey := newNode];
      parent := parent + [fromNode];
      return true, None;
    }

    /**
     * GetNodesFromDepth(d): the nodes exactly d edges below the root, in
     * left-to-right order; [root] for d = 0 and nothing for a negative d or
     * one beyond the tree's height.
     */
    method GetNodesFromDepth(d: int) returns (r: seq<nat>)
      requires Valid() && HasRoot()
      ensures forall x: nat :: x in r <==> x < |nodes| && Depth(parent, x) == d
      ensures d >= 0 ==> r == Level(nodes, d)
      ensures r == NodesFromDepth(nodes, 0, 0, d)
    {
      NodesAtDepthExactly(nodes, parent, d);
      NodesFromDepthIsLevel(nodes, d);
      r := GetNodesFrom(nodes, 0, 0, d);
    }

    /** getURLsFromNodeSlice: the URLs of the given nodes, in order, appended one by one. */
    method GetURLsFromNodeSlice(ids: seq<nat>) returns (urls: seq<Url>)
      requires forall x :: x in ids ==> x < |nodes|
      ensures |urls| == |ids|
      ensures forall k :: 0 <= k < |ids| ==> ids[k] < |nodes| && urls[k] == nodes[ids[k]].url
      ensures urls == FrontierURLs(nodes, ids)
    {
      urls := [];
      for i := 0 to |ids|
        invariant |urls| == i
        invariant forall k :: 0 <= k < i ==> ids[k] < |nodes| && urls[k] == nodes[ids[k]].url
      {
        assert ids[i] in ids;
        urls := urls + [nodes[ids[i]].url];
      }
    }

    /**
     * The inner loop of addToSiteMap: AddLeaf(fromNode, link) for each link
     * in order, going on past errors. Exactly MergeLinks on the old state.
     */
    method AddLinksFrom(fromNode: Url, links: seq<Url>) returns (seen: bool)
      requires Valid() && (HasRoot() || Hosted(links))
      modifies this
      ensures Valid()
      ensures var l := MergeLinks(env, old(State()), fromNode, links);
              seen == l.seen && State() == l.arena
      ensures rootTLDPlusOne == old(rootTLDPlusOne) && depth == old(depth)
    {
      seen := false;
      ghost var start := State();
      for j := 0 to |links|
        invariant Valid()
        invariant IndexInRange(start) && (|start.nodes| > 0 || Hosted(links))
        invariant |start.nodes| <= |nodes|
        invariant MergeLinks(env, start, fromNode, links[..j]) == Merge(seen, State())
        invariant rootTLDPlusOne == old(rootTLDPlusOne) && depth == old(depth)
      {
        MergeLinksStep(env, start, fromNode, links, j);
        var added, err := AddLeaf(fromNode, links[j]);
        seen := seen || added;
      }
      assert links[..|links|] == links;
    }

    /**
     * addToSiteMap: the links of every job result, in order, from its
     * FromURL; true when some AddLeaf added a node. Exactly MergeJobs on the
     * old state.
     */
    method AddToSiteMap(jobResults: seq<JobResult>) returns (seenSomethingNew: bool)
      requires Valid() && (HasRoot() || HostedJobs(jobResults))
      modifies this
      ensures Valid()
      ensures var m := MergeJobs(env, old(State()), jobResults);
              seenSomethingNew == m.seen && State() == m.arena
      ensures rootTLDPlusOne == old(rootTLDPlusOne) && depth == old(depth)
    {
      seenSomethingNew := false;
      for i := 0 to |jobResults|
        invariant Valid()
        invariant old(HasRoot()) ==> HasRoot()
        invariant MergeJobs(env, old(State()), jobResults[..i]) == Merge(seenSomethingNew, State())
        invariant rootTLDPlusOne == old(rootTLDPlusOne) && depth == old(depth)
      {
        MergeJobsStep(env, old(State()), jobResults, i);
        var added := AddLinksFrom(jobResults[i].fromURL, jobResults[i].linksTo);
        seenSomethingNew := seenSomethingNew || added;
      }
      assert jobResults[..|jobResults|] == jobResults;
    }

    /**
     * fillSiteMap: while checkDepth < Depth, fetch the nodes at checkDepth,
     * clean and filter each result's links, merge them, and stop at the
     * first round that adds nothing; Depth becomes the final checkDepth.
     * Exactly CrawlFrom from depth 0 on the old state. The batch fetch is
     * fetch.Links: every result it returns is for a URL that was queued.
     */
    method FillSiteMap(fetch: seq<Url> -> seq<JobResult>)
      requires Valid() && HasRoot() && FromQueued(fetch)
      modifies this
      ensures Valid()
      ensures var c := CrawlFrom(env, fetch, old(State()), old(rootTLDPlusOne), 0, old(depth));
              State() == c.arena && depth == c.depth
      ensures rootTLDPlusOne == old(rootTLDPlusOne)
    {
      var checkDepth := 0;
      while checkDepth < depth
        invariant Valid() && HasRoot() && 0 <= checkDepth
        invariant rootTLDPlusOne == old(rootTLDPlusOne) && depth == old(depth)
        invariant CrawlFrom(env, fetch, old(State()), rootTLDPlusOne, 0, depth)
                  == CrawlFrom(env, fetch, State(), rootTLDPlusOne, checkDepth, depth)
        decreases depth - checkDepth
      {
        var frontier := GetNodesFromDepth(checkDepth);
        var uris := GetURLsFromNodeSlice(frontier);
        var jobResults := fetch(uris);
        jobResults := NormaliseJobResults(env, jobResults, rootTLDPlusOne);
        CrawlStep(env, fetch, State(), rootTLDPlusOne, checkDepth, depth, jobResults);
        var seenSomethingNew := AddToSiteMap(jobResults);
        if !seenSomethingNew {
          break;
        }
        checkDepth := checkDepth + 1;
      }
      depth := checkDepth;
    }

    /**
     * String: the root's rendering, which is the text of the whole tree's
     * pre-order outline; by RootOutline it has one line per node, each node
     * exactly once, indented by its depth.
     */
    method String() returns (s: string)
      requires Valid() && HasRoot()
      ensures s == NodeString(env, nodes, 0)
      ensures s == Text(env, nodes, Outline(nodes, 0, 0))
      ensures |Outline(nodes, 0, 0)| == |nodes|
      ensures forall e :: e in Outline(nodes, 0, 0) <==> e.id < |nodes| && e.depth == Depth(parent, e.id)
    {
      RenderIsOutline(env, nodes, 0, 0);
      RootOutline(nodes, parent);
      s := StringAt(env, nodes, 0, 0);
    }
  }

  /**
   * MakeSiteMap: a seed that does not parse gives an empty sitemap with the
   * requested Depth; otherwise the seed becomes the root and the crawl runs
   * from depth 0 with the requested Depth as its bound. The final Depth is
   * then the depth of the deepest node.
   */
  method MakeSiteMap(env: Env, fetch: seq<Url> -> seq<JobResult>, seed: string, depth: int) returns (sm: SiteMap)
    requires FromQueued(fetch)
    ensures fresh(sm) && sm.Valid() && sm.env == env
    ensures env.parse(seed).None? ==>
              sm.nodes == [] && sm.index == map[] && sm.rootTLDPlusOne == "" && sm.depth == depth
    ensures env.parse(seed).Some? ==>
              var u := env.parse(seed).value;
              var c := CrawlFrom(env, fetch, RootArena(env, u), RootDomain(env, u), 0, depth);
              sm.State() == c.arena && sm.depth == c.depth && sm.rootTLDPlusOne == RootDomain(env, u)
    ensures env.parse(seed).Some? ==>
              && (forall x :: 0 <= x < |sm.nodes| ==> Depth(sm.parent, x) <= sm.depth)
              && (exists x :: 0 <= x < |sm.nodes| && Depth(sm.parent, x) == sm.depth)
  {
    sm := new SiteMap(env, depth);
    var parsed := env.parse(seed);
    if parsed.None? {
      return;
    }
    var seedurl := parsed.value;
    var _ := sm.SetRootNode(seedurl);
    sm.FillSiteMap(fetch);
    var p := CrawlFromRootDepth(env, fetch, seedurl, depth);
    forall x | 0 <= x < |sm.nodes|
      ensures Depth(sm.parent, x) == Depth(p, x)
    {
      DepthUnique(sm.nodes, sm.parent, p, x);
    }
  }

  /**
   * The normalisation loop of fillSiteMap: CleanURLS on each result's links
   * in place, then FilterLinksByHostname against the root's domain.
   */
  method NormaliseJobResults(env: Env, jobResults: seq<JobResult>, rootTLDPlusOne: string) returns (normalised: seq<JobResult>)
    ensures normalised == NormaliseJobs(env, jobResults, rootTLDPlusOne)
  {
    normalised := jobResults;
    for i := 0 to |jobResults|
      invariant |normalised| == |jobResults|
      invariant forall k :: 0 <= k < i ==> normalised[k] == NormaliseJobs(env, jobResults, rootTLDPlusOne)[k]
      invariant forall k :: i <= k < |jobResults| ==> normalised[k] == jobResults[k]
    {
      var linksTo := new Url[|normalised[i].linksTo|](k requires 0 <= k < |normalised[i].linksTo| => normalised[i].linksTo[k]);
      assert linksTo[..] == jobResults[i].linksTo;
      CleanURLS(linksTo);
      var acceptable := FilterLinksByHostname(env, linksTo[..], rootTLDPlusOne);
      normalised := normalised[i := normalised[i].(linksTo := acceptable)];
    }
  }
}
