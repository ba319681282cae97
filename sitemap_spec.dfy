/**
 * The sitemap's operations on values (sitemap/sitemap.go): the state of a
 * crawl, the outcome of AddLeaf, the merge of one round of job results
 * (addToSiteMap), one round of the crawl and the whole depth-bounded crawl
 * (fillSiteMap). The SiteMap class is proved to compute exactly these.
 */
module SitemapSpec {
  import opened Urls
  import opened Util
  import opened Fetch
  import opened SitemapNode
  import opened SitemapTree

  /**
   * The state a crawl builds: the node arena (node 0 is RootNode; an empty
   * arena is a nil RootNode) and the index from a URL's string form to the
   * node filed under it (SitemapURLSIndexed).
   */
  datatype Arena = Arena(nodes: seq<Node>, index: map<string, nat>)

  /** The two errors AddLeaf reports. */
  datatype AddError = NoRootNode | FromNotInSitemap(key: string)

  /** AddLeaf's returned pair and the state it leaves. */
  datatype AddResult = AddResult(added: bool, err: Option<AddError>, arena: Arena)

  /** Every index entry names a node of the arena. */
  ghost predicate IndexInRange(a: Arena)
  {
    forall k :: k in a.index ==> a.index[k] < |a.nodes|
  }

  /**
   * The index is exact: every key names the node whose URL has that string
   * form, every non-root node is filed under its own string, and the root
   * is too unless nothing is indexed (the root whose registrable domain was
   * unknown).
   */
  ghost predicate Indexed(env: Env, a: Arena)
  {
    && IndexInRange(a)
    && (forall k :: k in a.index ==> env.render(a.nodes[a.index[k]].url) == k)
    && (forall i :: 0 < i < |a.nodes| ==> env.render(a.nodes[i].url) in a.index && a.index[env.render(a.nodes[i].url)] == i)
    && (a.index == map[] || (|a.nodes| > 0 && env.render(a.nodes[0].url) in a.index && a.index[env.render(a.nodes[0].url)] == 0))
  }

  /** The sitemap invariant: a tree rooted at node 0 with an exact index. */
  ghost predicate WellFormed(env: Env, a: Arena, parent: seq<nat>)
  {
    Tree(a.nodes, parent) && Indexed(env, a)
  }

  /** b extends a: no node, URL, child or index entry of a is lost or changed. */
  ghost predicate Grows(a: Arena, b: Arena)
  {
    && |a.nodes| <= |b.nodes|
    && (forall i :: 0 <= i < |a.nodes| ==> b.nodes[i].url == a.nodes[i].url && a.nodes[i].linksTo <= b.nodes[i].linksTo)
    && (forall k :: k in a.index ==> k in b.index && b.index[k] == a.index[k])
  }

  /** The URL AddLeaf files: a target without a host name is resolved against the root's URL. */
  function Target(env: Env, a: Arena, to: Url): Url
    requires |a.nodes| > 0 || Hostname(to) != ""
  {
    if Hostname(to) == "" then env.resolve(a.nodes[0].url, to) else to
  }

  /**
   * AddLeaf(from, to). The resolution of a host-less target comes first and
   * needs the root (Go dereferences the nil root otherwise). Then: no root
   * is an error; a `from` that is not indexed is an error; a target already
   * indexed is (false, no error); otherwise the target becomes a new
   * childless node, the last child of `from`, filed under its string.
   * Errors and duplicates leave the state as it was.
   */
  function AddLeafSpec(env: Env, a: Arena, from: Url, to: Url): (r: AddResult)
    requires IndexInRange(a) && (|a.nodes| > 0 || Hostname(to) != "")
    ensures IndexInRange(r.arena) && |a.nodes| <= |r.arena.nodes|
    ensures r.added <==> |r.arena.nodes| > |a.nodes|
    ensures !r.added ==> r.arena == a
    ensures LinksForward(a.nodes) ==> LinksForward(r.arena.nodes)
  {
    var target := Target(env, a, to);
    if |a.nodes| == 0 then AddResult(false, Some(NoRootNode), a)
    else if env.render(from) !in a.index then AddResult(false, Some(FromNotInSitemap(env.render(from))), a)
    else if env.render(target) in a.index then AddResult(false, None, a)
    else
      var f := a.index[env.render(from)];
      var n := |a.nodes|;
      var nodes := a.nodes[f := a.nodes[f].AddLeaf(n)] + [Node(target, [])];
      AddResult(true, None, Arena(nodes, a.index[env.render(target) := n]))
  }

  /**
   * The outcomes of AddLeaf: no root, an unknown `from`, and a known target
   * change nothing and report what happened; otherwise the target becomes
   * the new last node, childless, the last child of `from`, filed under its
   * string, and no other node changes.
   */
  lemma AddLeafOutcomes(env: Env, a: Arena, from: Url, to: Url)
    requires IndexInRange(a) && (|a.nodes| > 0 || Hostname(to) != "")
    ensures var r := AddLeafSpec(env, a, from, to);
            && (|a.nodes| == 0 ==> r == AddResult(false, Some(NoRootNode), a))
            && (|a.nodes| > 0 && env.render(from) !in a.index ==> r == AddResult(false, Some(FromNotInSitemap(env.render(from))), a))
            && (|a.nodes| > 0 && env.render(from) in a.index && env.render(Target(env, a, to)) in a.index
                ==> r == AddResult(false, None, a))
            && (r.added <==> |a.nodes| > 0 && env.render(from) in a.index && env.render(Target(env, a, to)) !in a.index)
    ensures var r := AddLeafSpec(env, a, from, to);
            r.added ==>
              var f, n := a.index[env.render(from)], |a.nodes|;
              && r.err == None
              && |r.arena.nodes| == n + 1
              && r.arena.nodes[n] == Node(Target(env, a, to), [])
              && r.arena.nodes[f] == a.nodes[f].AddLeaf(n)
              && (forall i :: 0 <= i < n && i != f ==> r.arena.nodes[i] == a.nodes[i])
              && r.arena.index == a.index[env.render(Target(env, a, to)) := n]
  {
  }

  /** Appending a fresh childless node as the last child of node f keeps the arena a tree. */
  lemma AddChildKeepsTree(nodes: seq<Node>, parent: seq<nat>, f: nat, target: Url)
    requires Tree(nodes, parent) && f < |nodes|
    ensures Tree(nodes[f := nodes[f].AddLeaf(|nodes|)] + [Node(target, [])], parent + [f])
  {
    var n := |nodes|;
    var nodes', parent' := nodes[f := nodes[f].AddLeaf(n)] + [Node(target, [])], parent + [f];
    assert forall p, k :: 0 <= p < n && 0 <= k < |nodes[p].linksTo| ==> nodes'[p].linksTo[k] == nodes[p].linksTo[k];
    assert nodes'[f].linksTo[|nodes[f].linksTo|] == n;
    assert LinksForward(nodes');
    forall p | 0 <= p < |nodes'|
      ensures nodes'[p].linksTo == Kids(parent', p, |nodes'|)
    {
      KidsPrefix(parent, [f], p, n);
      if p == n {
        KidsNone(parent, n, n);
      }
    }
  }

  /** Filing a fresh key for the new last node keeps the index exact. */
  lemma AddChildKeepsIndexed(env: Env, a: Arena, f: nat, target: Url)
    requires Indexed(env, a) && f < |a.nodes| && a.index != map[]
    requires env.render(target) !in a.index
    ensures Indexed(env, Arena(a.nodes[f := a.nodes[f].AddLeaf(|a.nodes|)] + [Node(target, [])],
                                a.index[env.render(target) := |a.nodes|]))
  {
    var n := |a.nodes|;
    var b := Arena(a.nodes[f := a.nodes[f].AddLeaf(n)] + [Node(target, [])], a.index[env.render(target) := n]);
    assert forall i :: 0 <= i < n ==> b.nodes[i].url == a.nodes[i].url;
    forall i | 0 < i < |b.nodes|
      ensures env.render(b.nodes[i].url) in b.index && b.index[env.render(b.nodes[i].url)] == i
    {
      if i < n {
        assert env.render(a.nodes[i].url) in a.index;
      }
    }
  }

  /**
   * AddLeaf keeps the sitemap a tree with an exact index; the new node's
   * parent is the `from` node.
   */
  lemma AddLeafKeepsWellFormed(env: Env, a: Arena, parent: seq<nat>, from: Url, to: Url)
    requires WellFormed(env, a, parent) && (|a.nodes| > 0 || Hostname(to) != "")
    ensures var r := AddLeafSpec(env, a, from, to);
            WellFormed(env, r.arena, if r.added then parent + [a.index[env.render(from)]] else parent)
  {
    var r := AddLeafSpec(env, a, from, to);
    if r.added {
      var target := Target(env, a, to);
      var f := a.index[env.render(from)];
      AddChildKeepsTree(a.nodes, parent, f, target);
      AddChildKeepsIndexed(env, a, f, target);
    }
  }

  /**
   * Once AddLeaf has filed a target, adding the same target again, from any
   * node, is (false, no error) and changes nothing: no URL is indexed twice.
   */
  lemma AddLeafTwice(env: Env, a: Arena, from: Url, from': Url, to: Url)
    requires IndexInRange(a) && (|a.nodes| > 0 || Hostname(to) != "")
    requires AddLeafSpec(env, a, from, to).added
    ensures var b := AddLeafSpec(env, a, from, to).arena;
            env.render(from') in b.index ==> AddLeafSpec(env, b, from', to) == AddResult(false, None, b)
  {
    var b := AddLeafSpec(env, a, from, to).arena;
    assert b.nodes[0].url == a.nodes[0].url;
    assert Target(env, b, to) == Target(env, a, to);
  }

  /** Linking any indexed node, the root among them, to itself adds nothing and reports no error. */
  lemma AddLeafSelfLink(env: Env, a: Arena, u: Url)
    requires Indexed(env, a) && Hostname(u) != "" && env.render(u) in a.index
    ensures AddLeafSpec(env, a, u, u) == AddResult(false, None, a)
  {
  }

  /** Two different indexed nodes never carry URLs with the same string form. */
  lemma IndexedKeysUnique(env: Env, a: Arena, i: nat, j: nat)
    requires Indexed(env, a) && i < j < |a.nodes|
    requires i > 0 || a.index != map[]
    ensures env.render(a.nodes[i].url) != env.render(a.nodes[j].url)
  {
  }

  /** Whether a merge added anything, and the state it leaves. */
  datatype Merge = Merge(seen: bool, arena: Arena)

  /** Every link has a host name, so none needs the root to be resolved. */
  ghost predicate Hosted(links: seq<Url>)
  {
    forall k :: 0 <= k < |links| ==> Hostname(links[k]) != ""
  }

  ghost predicate HostedJobs(jobs: seq<JobResult>)
  {
    forall j :: 0 <= j < |jobs| ==> Hosted(jobs[j].linksTo)
  }

  /**
   * The inner loop of addToSiteMap: AddLeaf(from, link) for each link in
   * order, going on past errors; `seen` says whether some call returned
   * true. Defined on the last link, the direction the loop runs.
   */
  function MergeLinks(env: Env, a: Arena, from: Url, links: seq<Url>): (r: Merge)
    requires IndexInRange(a) && (|a.nodes| > 0 || Hosted(links))
    ensures IndexInRange(r.arena) && |a.nodes| <= |r.arena.nodes|
    ensures |r.arena.nodes| <= |a.nodes| + |links|
    ensures r.seen <==> |r.arena.nodes| > |a.nodes|
    ensures !r.seen ==> r.arena == a
    ensures LinksForward(a.nodes) ==> LinksForward(r.arena.nodes)
    decreases |links|
  {
    if links == [] then Merge(false, a)
    else
      var m := MergeLinks(env, a, from, links[..|links| - 1]);
      var s := AddLeafSpec(env, m.arena, from, links[|links| - 1]);
      Merge(m.seen || s.added, s.arena)
  }

  /** addToSiteMap: MergeLinks over each job result in order, from its FromURL. */
  function MergeJobs(env: Env, a: Arena, jobs: seq<JobResult>): (r: Merge)
    requires IndexInRange(a) && (|a.nodes| > 0 || HostedJobs(jobs))
    ensures IndexInRange(r.arena) && |a.nodes| <= |r.arena.nodes|
    ensures r.seen <==> |r.arena.nodes| > |a.nodes|
    ensures !r.seen ==> r.arena == a
    ensures LinksForward(a.nodes) ==> LinksForward(r.arena.nodes)
    decreases |jobs|
  {
    if jobs == [] then Merge(false, a)
    else
      var m := MergeJobs(env, a, jobs[..|jobs| - 1]);
      var job := jobs[|jobs| - 1];
      var l := MergeLinks(env, m.arena, job.fromURL, job.linksTo);
      Merge(m.seen || l.seen, l.arena)
  }

  lemma GrowsTrans(a: Arena, b: Arena, c: Arena)
    requires Grows(a, b) && Grows(b, c)
    ensures Grows(a, c)
  {
  }

  /** AddLeaf loses nothing: every node keeps its URL and its children, every index entry stays. */
  lemma AddLeafGrows(env: Env, a: Arena, from: Url, to: Url)
    requires IndexInRange(a) && (|a.nodes| > 0 || Hostname(to) != "")
    ensures Grows(a, AddLeafSpec(env, a, from, to).arena)
  {
    var r := AddLeafSpec(env, a, from, to);
    if r.added {
      var f := a.index[env.render(from)];
      assert forall i :: 0 <= i < |a.nodes| ==> r.arena.nodes[i].url == a.nodes[i].url && a.nodes[i].linksTo <= r.arena.nodes[i].linksTo;
    }
  }

  /** A merge of links loses nothing of the state it starts from. */
  lemma {:induction false} MergeLinksGrows(env: Env, a: Arena, from: Url, links: seq<Url>)
    requires IndexInRange(a) && (|a.nodes| > 0 || Hosted(links))
    ensures Grows(a, MergeLinks(env, a, from, links).arena)
    decreases |links|
  {
    if links != [] {
      var init := links[..|links| - 1];
      MergeLinksGrows(env, a, from, init);
      var m := MergeLinks(env, a, from, init);
      AddLeafGrows(env, m.arena, from, links[|links| - 1]);
      GrowsTrans(a, m.arena, MergeLinks(env, a, from, links).arena);
    }
  }

  /** A merge of job results loses nothing of the state it starts from. */
  lemma {:induction false} MergeJobsGrows(env: Env, a: Arena, jobs: seq<JobResult>)
    requires IndexInRange(a) && (|a.nodes| > 0 || HostedJobs(jobs))
    ensures Grows(a, MergeJobs(env, a, jobs).arena)
    decreases |jobs|
  {
    if jobs != [] {
      var init := jobs[..|jobs| - 1];
      MergeJobsGrows(env, a, init);
      var m := MergeJobs(env, a, init);
      var job := jobs[|jobs| - 1];
      MergeLinksGrows(env, m.arena, job.fromURL, job.linksTo);
      GrowsTrans(a, m.arena, MergeJobs(env, a, jobs).arena);
    }
  }

  /** One more link: the merge so far, then AddLeaf of that link. */
  lemma MergeLinksStep(env: Env, a: Arena, from: Url, links: seq<Url>, j: nat)
    requires IndexInRange(a) && (|a.nodes| > 0 || Hosted(links)) && j < |links|
    ensures Hosted(links) ==> Hosted(links[..j]) && Hosted(links[..j + 1])
    ensures var m := MergeLinks(env, a, from, links[..j]);
            var s := AddLeafSpec(env, m.arena, from, links[j]);
            MergeLinks(env, a, from, links[..j + 1]) == Merge(m.seen || s.added, s.arena)
  {
    assert links[..j + 1][..j] == links[..j];
  }

  /** One more job result: the merge so far, then MergeLinks of its links from its FromURL. */
  lemma MergeJobsStep(env: Env, a: Arena, jobs: seq<JobResult>, i: nat)
    requires IndexInRange(a) && (|a.nodes| > 0 || HostedJobs(jobs)) && i < |jobs|
    ensures HostedJobs(jobs) ==> HostedJobs(jobs[..i]) && HostedJobs(jobs[..i + 1]) && Hosted(jobs[i].linksTo)
    ensures var m := MergeJobs(env, a, jobs[..i]);
            var l := MergeLinks(env, m.arena, jobs[i].fromURL, jobs[i].linksTo);
            MergeJobs(env, a, jobs[..i + 1]) == Merge(m.seen || l.seen, l.arena)
  {
    assert jobs[..i + 1][..i] == jobs[..i];
  }

  /**
   * Every AddLeaf in a merge keeps the sitemap invariant, with one parent
   * entry per new node: every node the merge adds is a child of the node
   * filed under `from` before the merge.
   */
  lemma {:induction false} MergeLinksKeepsWellFormed(env: Env, a: Arena, parent: seq<nat>, from: Url, links: seq<Url>)
    returns (parent': seq<nat>)
    requires WellFormed(env, a, parent) && (|a.nodes| > 0 || Hosted(links))
    ensures WellFormed(env, MergeLinks(env, a, from, links).arena, parent')
    ensures parent <= parent'
    ensures |parent'| > |parent| ==>
              && env.render(from) in a.index
              && forall x :: |parent| <= x < |parent'| ==> parent'[x] == a.index[env.render(from)]
    decreases |links|
  {
    if links == [] {
      parent' := parent;
    } else {
      var init := links[..|links| - 1];
      var p := MergeLinksKeepsWellFormed(env, a, parent, from, init);
      var m := MergeLinks(env, a, from, init);
      MergeLinksGrows(env, a, from, init);
      AddLeafKeepsWellFormed(env, m.arena, p, from, links[|links| - 1]);
      var s := AddLeafSpec(env, m.arena, from, links[|links| - 1]);
      parent' := if s.added then p + [m.arena.index[env.render(from)]] else p;
      if |p| == |parent| {
        assert m.arena == a;
      }
      LinkParentsStep(env.render(from), a.index, m.arena.index, parent, p, parent');
    }
  }

  /**
   * One more link in the argument of MergeLinksKeepsWellFormed: the new
   * node, if any, hangs under the node filed under `from`'s key, which the
   * earlier links did not move.
   */
  lemma LinkParentsStep(key: string, start: map<string, nat>, mid: map<string, nat>,
                        parent: seq<nat>, p: seq<nat>, parent': seq<nat>)
    requires parent <= p
    requires parent' == p || (key in mid && parent' == p + [mid[key]])
    requires |p| > |parent| ==> key in start && forall x :: |parent| <= x < |p| ==> p[x] == start[key]
    requires |p| == |parent| ==> mid == start
    requires forall k :: k in start ==> k in mid && mid[k] == start[k]
    ensures |parent'| > |parent| ==> key in start && forall x :: |parent| <= x < |parent'| ==> parent'[x] == start[key]
  {
  }

  /**
   * A merge of job results keeps the sitemap invariant; every node it adds
   * is a child of the node filed, after the merge, under the FromURL of
   * one of the results.
   */
  lemma {:induction false} MergeJobsKeepsWellFormed(env: Env, a: Arena, parent: seq<nat>, jobs: seq<JobResult>)
    returns (parent': seq<nat>)
    requires WellFormed(env, a, parent) && (|a.nodes| > 0 || HostedJobs(jobs))
    ensures WellFormed(env, MergeJobs(env, a, jobs).arena, parent')
    ensures parent <= parent'
    ensures forall x :: |parent| <= x < |parent'| ==> FiledFrom(env, jobs, MergeJobs(env, a, jobs).arena.index, parent'[x])
    decreases |jobs|
  {
    if jobs == [] {
      parent' := parent;
    } else {
      var init := jobs[..|jobs| - 1];
      var p := MergeJobsKeepsWellFormed(env, a, parent, init);
      var m := MergeJobs(env, a, init);
      var job := jobs[|jobs| - 1];
      parent' := MergeLinksKeepsWellFormed(env, m.arena, p, job.fromURL, job.linksTo);
      MergeLinksGrows(env, m.arena, job.fromURL, job.linksTo);
      assert init + [job] == jobs;
      JobParentsStep(env, jobs, init, job, m.arena.index, MergeJobs(env, a, jobs).arena.index, parent, p, parent');
    }
  }

  /** Node `id` is the one the index files under the FromURL of one of the job results. */
  ghost predicate FiledFrom(env: Env, jobs: seq<JobResult>, index: map<string, nat>, id: nat)
  {
    exists j :: 0 <= j < |jobs| && env.render(jobs[j].fromURL) in index && index[env.render(jobs[j].fromURL)] == id
  }

  /**
   * One more job in the argument of MergeJobsKeepsWellFormed: nodes added
   * by the earlier jobs hang under an earlier FromURL's node, those added by
   * the last job under the last FromURL's node, and the index entries the
   * last job started from stay.
   */
  lemma JobParentsStep(env: Env, jobs: seq<JobResult>, init: seq<JobResult>, last: JobResult,
                       mid: map<string, nat>, final: map<string, nat>, parent: seq<nat>, p: seq<nat>, parent': seq<nat>)
    requires jobs == init + [last] && parent <= p <= parent'
    requires forall x :: |parent| <= x < |p| ==> FiledFrom(env, init, mid, p[x])
    requires |parent'| > |p| ==>
               && env.render(last.fromURL) in mid
               && forall x :: |p| <= x < |parent'| ==> parent'[x] == mid[env.render(last.fromURL)]
    requires forall k :: k in mid ==> k in final && final[k] == mid[k]
    ensures forall x :: |parent| <= x < |parent'| ==> FiledFrom(env, jobs, final, parent'[x])
  {
    forall x | |parent| <= x < |parent'|
      ensures FiledFrom(env, jobs, final, parent'[x])
    {
      if x < |p| {
        assert parent'[x] == p[x] && FiledFrom(env, init, mid, p[x]);
        var j :| 0 <= j < |init| && env.render(init[j].fromURL) in mid && mid[env.render(init[j].fromURL)] == p[x];
        assert jobs[j] == init[j];
      } else {
        assert jobs[|init|] == last;
      }
    }
  }

  /** With nothing indexed every AddLeaf fails, so a merge adds nothing. */
  lemma {:induction false} MergeLinksWithoutIndex(env: Env, a: Arena, from: Url, links: seq<Url>)
    requires IndexInRange(a) && (|a.nodes| > 0 || Hosted(links)) && a.index == map[]
    ensures MergeLinks(env, a, from, links) == Merge(false, a)
    decreases |links|
  {
    if links != [] {
      MergeLinksWithoutIndex(env, a, from, links[..|links| - 1]);
    }
  }

  lemma {:induction false} MergeJobsWithoutIndex(env: Env, a: Arena, jobs: seq<JobResult>)
    requires IndexInRange(a) && (|a.nodes| > 0 || HostedJobs(jobs)) && a.index == map[]
    ensures MergeJobs(env, a, jobs) == Merge(false, a)
    decreases |jobs|
  {
    if jobs != [] {
      var init := jobs[..|jobs| - 1];
      MergeJobsWithoutIndex(env, a, init);
      var job := jobs[|jobs| - 1];
      MergeLinksWithoutIndex(env, a, job.fromURL, job.linksTo);
    }
  }

  /**
   * The normalisation fillSiteMap applies to each job result before the
   * merge: CleanURLS, then FilterLinksByHostname against the root's domain.
   */
  function NormaliseJobs(env: Env, jobs: seq<JobResult>, rootTLDPlusOne: string): (r: seq<JobResult>)
    ensures |r| == |jobs|
    ensures forall i :: 0 <= i < |r| ==> r[i].fromURL == jobs[i].fromURL
  {
    seq(|jobs|, i requires 0 <= i < |jobs| =>
      JobResult(jobs[i].fromURL, SiteLinks(env, CleanAll(jobs[i].linksTo), rootTLDPlusOne)))
  }

  /**
   * What reaches AddLeaf after normalisation: clean links that are part of
   * the site, each the cleaned form of a link the page had, and every such
   * cleaned link.
   */
  lemma NormalisedLinks(env: Env, jobs: seq<JobResult>, rootTLDPlusOne: string, i: nat, u: Url)
    requires i < |jobs|
    ensures u in NormaliseJobs(env, jobs, rootTLDPlusOne)[i].linksTo
            <==> u.fragment == "" && u.rawQuery == "" && LinkPartOfSite(env, u, rootTLDPlusOne)
                 && exists v :: v in jobs[i].linksTo && CleanURL(v) == u
  {
    var cleaned := CleanAll(jobs[i].linksTo);
    SiteLinksMembers(env, cleaned, rootTLDPlusOne, u);
    if u in cleaned {
      var k :| 0 <= k < |cleaned| && cleaned[k] == u;
      assert jobs[i].linksTo[k] in jobs[i].linksTo;
    }
    if exists v :: v in jobs[i].linksTo && CleanURL(v) == u {
      var v :| v in jobs[i].linksTo && CleanURL(v) == u;
      var k :| 0 <= k < |jobs[i].linksTo| && jobs[i].linksTo[k] == v;
      assert cleaned[k] == u;
    }
  }

  /** getURLsFromNodeSlice's result: the URLs of the given nodes, in order. */
  function FrontierURLs(nodes: seq<Node>, ids: seq<nat>): (r: seq<Url>)
    requires forall x :: x in ids ==> x < |nodes|
    ensures |r| == |ids|
  {
    seq(|ids|, k requires 0 <= k < |ids| => assert ids[k] in ids; nodes[ids[k]].url)
  }

  /** The state SetRootNode leaves in a fresh sitemap: the root alone, indexed when its domain is known. */
  function RootArena(env: Env, baseURL: Url): Arena
  {
    Arena([Node(baseURL, [])], if env.tldPlusOne(Hostname(baseURL)).Some? then map[env.render(baseURL) := 0] else map[])
  }

  /** The domain SetRootNode records in a fresh sitemap: the root's registrable domain, or "" when unknown. */
  function RootDomain(env: Env, baseURL: Url): string
  {
    match env.tldPlusOne(Hostname(baseURL))
    case None => ""
    case Some(t) => t
  }

  /** A fresh root is a well-formed sitemap of one node. */
  lemma RootArenaWellFormed(env: Env, baseURL: Url)
    ensures WellFormed(env, RootArena(env, baseURL), [0])
  {
  }

  /**
   * One round of the crawl loop at depth `checkDepth`: fetch the nodes at
   * that depth, normalise the results and merge them.
   */
  function Round(env: Env, fetch: seq<Url> -> seq<JobResult>, a: Arena, rootTLDPlusOne: string, checkDepth: int): (r: Merge)
    requires |a.nodes| > 0 && IndexInRange(a) && LinksForward(a.nodes)
    ensures IndexInRange(r.arena) && |a.nodes| <= |r.arena.nodes| && LinksForward(r.arena.nodes)
    ensures r.seen <==> |r.arena.nodes| > |a.nodes|
    ensures !r.seen ==> r.arena == a
  {
    var frontier := NodesFromDepth(a.nodes, 0, 0, checkDepth);
    var jobs := NormaliseJobs(env, fetch(FrontierURLs(a.nodes, frontier)), rootTLDPlusOne);
    MergeJobs(env, a, jobs)
  }

  /** The URLs a round hands to the fetcher are exactly those of the nodes at the round's depth. */
  lemma RoundFetchesLevel(a: Arena, parent: seq<nat>, checkDepth: int, u: Url)
    requires Tree(a.nodes, parent) && |a.nodes| > 0
    ensures u in FrontierURLs(a.nodes, NodesFromDepth(a.nodes, 0, 0, checkDepth))
            <==> exists x :: 0 <= x < |a.nodes| && Depth(parent, x) == checkDepth && a.nodes[x].url == u
  {
    var ids := NodesFromDepth(a.nodes, 0, 0, checkDepth);
    var urls := FrontierURLs(a.nodes, ids);
    if u in urls {
      var k :| 0 <= k < |urls| && urls[k] == u;
      assert ids[k] in ids;
      NodesAtDepthExactly(a.nodes, parent, checkDepth);
    }
    if exists x :: 0 <= x < |a.nodes| && Depth(parent, x) == checkDepth && a.nodes[x].url == u {
      var x :| 0 <= x < |a.nodes| && Depth(parent, x) == checkDepth && a.nodes[x].url == u;
      NodesAtDepthExactly(a.nodes, parent, checkDepth);
      var k :| 0 <= k < |ids| && ids[k] == x;
      assert urls[k] == u;
    }
  }

  /** The outcome of a crawl: the state and the final Depth. */
  datatype Crawl = Crawl(arena: Arena, depth: int)

  /**
   * fillSiteMap from depth `checkDepth` on, with the loop bound `limit`:
   * while checkDepth < limit run a round; stop at the first round that
   * adds nothing, otherwise go one level deeper. The final Depth is the
   * checkDepth the loop ends with.
   */
  function CrawlFrom(env: Env, fetch: seq<Url> -> seq<JobResult>, a: Arena, rootTLDPlusOne: string, checkDepth: int, limit: int): (r: Crawl)
    requires |a.nodes| > 0 && IndexInRange(a) && LinksForward(a.nodes)
    ensures checkDepth <= r.depth
    ensures checkDepth <= limit ==> r.depth <= limit
    ensures checkDepth >= limit ==> r == Crawl(a, checkDepth)
    ensures |r.arena.nodes| >= |a.nodes| + (r.depth - checkDepth)
    ensures IndexInRange(r.arena) && LinksForward(r.arena.nodes)
    decreases limit - checkDepth
  {
    if checkDepth >= limit then Crawl(a, checkDepth)
    else
      var m := Round(env, fetch, a, rootTLDPlusOne, checkDepth);
      if !m.seen then Crawl(m.arena, checkDepth)
      else CrawlFrom(env, fetch, m.arena, rootTLDPlusOne, checkDepth + 1, limit)
  }

  /** A round loses nothing of the state it starts from. */
  lemma RoundGrows(env: Env, fetch: seq<Url> -> seq<JobResult>, a: Arena, rootTLDPlusOne: string, checkDepth: int)
    requires |a.nodes| > 0 && IndexInRange(a) && LinksForward(a.nodes)
    ensures Grows(a, Round(env, fetch, a, rootTLDPlusOne, checkDepth).arena)
  {
    var frontier := NodesFromDepth(a.nodes, 0, 0, checkDepth);
    MergeJobsGrows(env, a, NormaliseJobs(env, fetch(FrontierURLs(a.nodes, frontier)), rootTLDPlusOne));
  }

  /**
   * The crawl only adds: every node of the state it starts from keeps its
   * URL and its children, and every index entry stays.
   */
  lemma {:induction false} CrawlGrows(env: Env, fetch: seq<Url> -> seq<JobResult>, a: Arena, rootTLDPlusOne: string, checkDepth: int, limit: int)
    requires |a.nodes| > 0 && IndexInRange(a) && LinksForward(a.nodes)
    ensures Grows(a, CrawlFrom(env, fetch, a, rootTLDPlusOne, checkDepth, limit).arena)
    decreases limit - checkDepth
  {
    if checkDepth < limit {
      var m := Round(env, fetch, a, rootTLDPlusOne, checkDepth);
      RoundGrows(env, fetch, a, rootTLDPlusOne, checkDepth);
      if m.seen {
        CrawlGrows(env, fetch, m.arena, rootTLDPlusOne, checkDepth + 1, limit);
        GrowsTrans(a, m.arena, CrawlFrom(env, fetch, a, rootTLDPlusOne, checkDepth, limit).arena);
      }
    }
  }

  /** One iteration of fillSiteMap's loop below the bound: the round's merge, then stop or go deeper. */
  lemma CrawlStep(env: Env, fetch: seq<Url> -> seq<JobResult>, a: Arena, rootTLDPlusOne: string, checkDepth: int, limit: int,
                  jobs: seq<JobResult>)
    requires |a.nodes| > 0 && IndexInRange(a) && LinksForward(a.nodes) && checkDepth < limit
    requires jobs == NormaliseJobs(env, fetch(FrontierURLs(a.nodes, NodesFromDepth(a.nodes, 0, 0, checkDepth))), rootTLDPlusOne)
    ensures var m := MergeJobs(env, a, jobs);
            && (!m.seen ==> m.arena == a && CrawlFrom(env, fetch, a, rootTLDPlusOne, checkDepth, limit) == Crawl(a, checkDepth))
            && (m.seen ==> CrawlFrom(env, fetch, a, rootTLDPlusOne, checkDepth, limit)
                           == CrawlFrom(env, fetch, m.arena, rootTLDPlusOne, checkDepth + 1, limit))
  {
  }

  /**
   * The crawl stops early only at a fixpoint: when the final Depth is below
   * the bound, the round at that depth adds nothing to the final state.
   */
  lemma {:induction false} CrawlStopsAtFixpoint(env: Env, fetch: seq<Url> -> seq<JobResult>, a: Arena, rootTLDPlusOne: string, checkDepth: int, limit: int)
    requires |a.nodes| > 0 && IndexInRange(a) && LinksForward(a.nodes)
    ensures var r := CrawlFrom(env, fetch, a, rootTLDPlusOne, checkDepth, limit);
            r.depth < limit ==> !Round(env, fetch, r.arena, rootTLDPlusOne, r.depth).seen
    decreases limit - checkDepth
  {
    if checkDepth < limit {
      var m := Round(env, fetch, a, rootTLDPlusOne, checkDepth);
      if m.seen {
        CrawlStopsAtFixpoint(env, fetch, m.arena, rootTLDPlusOne, checkDepth + 1, limit);
      }
    }
  }

  /** Every round before the final Depth added at least one node. */
  lemma {:induction false} CrawlRoundsProductive(env: Env, fetch: seq<Url> -> seq<JobResult>, a: Arena, rootTLDPlusOne: string, checkDepth: int, limit: int)
    requires |a.nodes| > 0 && IndexInRange(a) && LinksForward(a.nodes)
    ensures var r := CrawlFrom(env, fetch, a, rootTLDPlusOne, checkDepth, limit);
            r.depth > checkDepth ==> Round(env, fetch, a, rootTLDPlusOne, checkDepth).seen
    ensures var r := CrawlFrom(env, fetch, a, rootTLDPlusOne, checkDepth, limit);
            r.depth > checkDepth ==> r == CrawlFrom(env, fetch, Round(env, fetch, a, rootTLDPlusOne, checkDepth).arena, rootTLDPlusOne, checkDepth + 1, limit)
  {
  }

  /** The whole crawl keeps the sitemap invariant. */
  lemma {:induction false} CrawlKeepsWellFormed(env: Env, fetch: seq<Url> -> seq<JobResult>, a: Arena, parent: seq<nat>, rootTLDPlusOne: string, checkDepth: int, limit: int)
    returns (parent': seq<nat>)
    requires |a.nodes| > 0 && WellFormed(env, a, parent)
    ensures WellFormed(env, CrawlFrom(env, fetch, a, rootTLDPlusOne, checkDepth, limit).arena, parent')
    ensures parent <= parent'
    decreases limit - checkDepth
  {
    parent' := parent;
    if checkDepth < limit {
      var frontier := NodesFromDepth(a.nodes, 0, 0, checkDepth);
      var jobs := NormaliseJobs(env, fetch(FrontierURLs(a.nodes, frontier)), rootTLDPlusOne);
      var p := MergeJobsKeepsWellFormed(env, a, parent, jobs);
      var m := Round(env, fetch, a, rootTLDPlusOne, checkDepth);
      if m.seen {
        parent' := CrawlKeepsWellFormed(env, fetch, m.arena, p, rootTLDPlusOne, checkDepth + 1, limit);
      }
    }
  }

  /**
   * When every result the fetcher returns comes from a queued URL, a round
   * at depth checkDepth adds only children of the nodes at that depth: every
   * new node is one level deeper, and the nodes that were there keep their
   * depth.
   */
  lemma RoundAddsNextLevel(env: Env, fetch: seq<Url> -> seq<JobResult>, a: Arena, parent: seq<nat>, rootTLDPlusOne: string, checkDepth: int)
    returns (parent': seq<nat>)
    requires |a.nodes| > 0 && WellFormed(env, a, parent) && FromQueued(fetch)
    ensures WellFormed(env, Round(env, fetch, a, rootTLDPlusOne, checkDepth).arena, parent')
    ensures parent <= parent'
    ensures forall x :: 0 <= x < |a.nodes| ==> Depth(parent', x) == Depth(parent, x)
    ensures forall x :: |a.nodes| <= x < |parent'| ==> Depth(parent', x) == checkDepth + 1
  {
    var uris := FrontierURLs(a.nodes, NodesFromDepth(a.nodes, 0, 0, checkDepth));
    var jobs := NormaliseJobs(env, fetch(uris), rootTLDPlusOne);
    parent' := MergeJobsKeepsWellFormed(env, a, parent, jobs);
    var r := MergeJobs(env, a, jobs).arena;
    forall x | 0 <= x < |a.nodes|
      ensures Depth(parent', x) == Depth(parent, x)
    {
      DepthPrefix(parent, parent', x);
    }
    if a.index == map[] {
      MergeJobsWithoutIndex(env, a, jobs);
    } else {
      MergeJobsGrows(env, a, jobs);
      forall x | |a.nodes| <= x < |parent'|
        ensures Depth(parent', x) == checkDepth + 1
      {
        assert FiledFrom(env, jobs, r.index, parent'[x]);
        var j :| 0 <= j < |jobs| && env.render(jobs[j].fromURL) in r.index && r.index[env.render(jobs[j].fromURL)] == parent'[x];
        var u := jobs[j].fromURL;
        assert u == fetch(uris)[j].fromURL;
        RoundFetchesLevel(a, parent, checkDepth, u);
        var y :| 0 <= y < |a.nodes| && Depth(parent, y) == checkDepth && a.nodes[y].url == u;
        assert a.index[env.render(u)] == y;
        DepthPrefix(parent, parent', y);
      }
    }
  }

  /**
   * When every fetched result comes from a queued URL, the crawl never goes
   * deeper than its final Depth, and it reaches it: started from a state
   * whose deepest nodes sit at checkDepth, every node of the final state is
   * at most the final Depth below the root, and some node is exactly there.
   */
  lemma {:induction false} CrawlDepthReached(env: Env, fetch: seq<Url> -> seq<JobResult>, a: Arena, parent: seq<nat>, rootTLDPlusOne: string, checkDepth: int, limit: int)
    returns (parent': seq<nat>)
    requires |a.nodes| > 0 && WellFormed(env, a, parent) && FromQueued(fetch)
    requires forall x :: 0 <= x < |a.nodes| ==> Depth(parent, x) <= checkDepth
    requires exists x :: 0 <= x < |a.nodes| && Depth(parent, x) == checkDepth
    ensures var r := CrawlFrom(env, fetch, a, rootTLDPlusOne, checkDepth, limit);
            && WellFormed(env, r.arena, parent')
            && (forall x :: 0 <= x < |r.arena.nodes| ==> Depth(parent', x) <= r.depth)
            && (exists x :: 0 <= x < |r.arena.nodes| && Depth(parent', x) == r.depth)
    decreases limit - checkDepth
  {
    parent' := parent;
    if checkDepth < limit {
      var p := RoundAddsNextLevel(env, fetch, a, parent, rootTLDPlusOne, checkDepth);
      var m := Round(env, fetch, a, rootTLDPlusOne, checkDepth);
      if m.seen {
        assert Depth(p, |a.nodes|) == checkDepth + 1;
        parent' := CrawlDepthReached(env, fetch, m.arena, p, rootTLDPlusOne, checkDepth + 1, limit);
      }
    }
  }

  /**
   * From a fresh root, and with every fetched result coming from a queued
   * URL, the final Depth is exactly the depth of the deepest node of the
   * sitemap.
   */
  lemma CrawlFromRootDepth(env: Env, fetch: seq<Url> -> seq<JobResult>, seed: Url, limit: int)
    returns (parent': seq<nat>)
    requires FromQueued(fetch)
    ensures var r := CrawlFrom(env, fetch, RootArena(env, seed), RootDomain(env, seed), 0, limit);
            && WellFormed(env, r.arena, parent')
            && (forall x :: 0 <= x < |r.arena.nodes| ==> Depth(parent', x) <= r.depth)
            && (exists x :: 0 <= x < |r.arena.nodes| && Depth(parent', x) == r.depth)
  {
    RootArenaWellFormed(env, seed);
    assert Depth([0], 0) == 0;
    parent' := CrawlDepthReached(env, fetch, RootArena(env, seed), [0], RootDomain(env, seed), 0, limit);
  }

  /**
   * With nothing indexed (the root whose registrable domain was unknown)
   * the crawl adds nothing and ends at the depth it started from: the
   * sitemap is not populated at all.
   */
  lemma CrawlWithoutIndex(env: Env, fetch: seq<Url> -> seq<JobResult>, a: Arena, rootTLDPlusOne: string, checkDepth: int, limit: int)
    requires |a.nodes| > 0 && IndexInRange(a) && LinksForward(a.nodes) && a.index == map[]
    ensures CrawlFrom(env, fetch, a, rootTLDPlusOne, checkDepth, limit) == Crawl(a, checkDepth)
  {
    if checkDepth < limit {
      var frontier := NodesFromDepth(a.nodes, 0, 0, checkDepth);
      var jobs := NormaliseJobs(env, fetch(FrontierURLs(a.nodes, frontier)), rootTLDPlusOne);
      MergeJobsWithoutIndex(env, a, jobs);
    }
  }

  /**
   * A seed whose registrable domain is unknown yields the root alone and a
   * final Depth of 0, whatever the requested depth and whatever is fetched.
   */
  lemma UnregistrableSeedUnpopulated(env: Env, fetch: seq<Url> -> seq<JobResult>, seed: Url, depth: int)
    requires env.tldPlusOne(Hostname(seed)) == None
    ensures CrawlFrom(env, fetch, RootArena(env, seed), RootDomain(env, seed), 0, depth) == Crawl(RootArena(env, seed), 0)
  {
    CrawlWithoutIndex(env, fetch, RootArena(env, seed), RootDomain(env, seed), 0, depth);
  }
}
