/**
 * Normalising and filtering of discovered links (util/util.go): clearing
 * query and fragment, and keeping only the links whose registrable domain
 * (effective TLD plus one) is the root's.
 */
module Util {
  import opened Urls

  /**
   * CleanURL: the link with its fragment and raw query cleared. Go updates
   * the url.URL through its pointer; the model returns the updated value.
   */
  function CleanURL(link: Url): (r: Url)
    ensures r.fragment == "" && r.rawQuery == ""
    ensures r.scheme == link.scheme && r.opaquePart == link.opaquePart && r.user == link.user
    ensures r.host == link.host && r.port == link.port
    ensures r.path == link.path && r.rawPath == link.rawPath && r.forceQuery == link.forceQuery
    ensures r == link <==> link.fragment == "" && link.rawQuery == ""
  {
    link.(fragment := "", rawQuery := "")
  }

  /** Cleaning an already clean link changes nothing. */
  lemma CleanURLIdempotent(link: Url)
    ensures CleanURL(CleanURL(link)) == CleanURL(link)
  {
  }

  /** Every link of a sequence cleaned, in place: what CleanURLS leaves behind. */
  function CleanAll(links: seq<Url>): (r: seq<Url>)
    ensures |r| == |links|
    ensures forall k :: 0 <= k < |r| ==> r[k] == CleanURL(links[k])
  {
    seq(|links|, k requires 0 <= k < |links| => CleanURL(links[k]))
  }

  /** Cleaning a whole sequence twice is the same as once. */
  lemma CleanAllIdempotent(links: seq<Url>)
    ensures CleanAll(CleanAll(links)) == CleanAll(links)
  {
  }

  /**
   * CleanURLS: cleans every link of the slice in place. The slice keeps its
   * length and its order; only the fragment and query of each link change.
   */
  method CleanURLS(links: array<Url>)
    modifies links
    ensures links[..] == CleanAll(old(links[..]))
  {
    for i := 0 to links.Length
      invariant forall k :: 0 <= k < i ==> links[k] == CleanURL(old(links[k]))
      invariant forall k :: i <= k < links.Length ==> links[k] == old(links[k])
    {
      links[i] := CleanURL(links[i]);
    }
  }

  /**
   * LinkPartOfSite: true exactly when the registrable domain of the link's
   * host can be computed and equals the root's. A host whose registrable
   * domain cannot be computed is never part of the site.
   */
  function LinkPartOfSite(env: Env, link: Url, rootTLDPlusOne: string): (r: bool)
    ensures r <==> env.tldPlusOne(Hostname(link)) == Some(rootTLDPlusOne)
  {
    match env.tldPlusOne(Hostname(link))
    case None => false
    case Some(linkTLDPlusOne) => rootTLDPlusOne == linkTLDPlusOne
  }

  /** A link whose registrable domain cannot be computed is rejected, whatever the root. */
  lemma UnregistrableNeverPartOfSite(env: Env, link: Url, rootTLDPlusOne: string)
    requires env.tldPlusOne(Hostname(link)) == None
    ensures !LinkPartOfSite(env, link, rootTLDPlusOne)
  {
  }

  /**
   * Membership is symmetric between two hosts that both have a registrable
   * domain: each is part of the other's site exactly when they share it.
   */
  lemma PartOfSiteSymmetric(env: Env, a: Url, b: Url)
    requires env.tldPlusOne(Hostname(a)).Some? && env.tldPlusOne(Hostname(b)).Some?
    ensures LinkPartOfSite(env, a, env.tldPlusOne(Hostname(b)).value)
        == LinkPartOfSite(env, b, env.tldPlusOne(Hostname(a)).value)
  {
  }

  /**
   * The order-preserving subsequence of the links that are part of the site
   * (the specification of FilterLinksByHostname), defined on the last link
   * so that it follows the loop's direction.
   */
  function SiteLinks(env: Env, links: seq<Url>, rootTLDPlusOne: string): (r: seq<Url>)
    ensures |r| <= |links|
    ensures forall x :: x in r ==> LinkPartOfSite(env, x, rootTLDPlusOne)
    decreases |links|
  {
    if links == [] then []
    else
      var kept := SiteLinks(env, links[..|links| - 1], rootTLDPlusOne);
      var last := links[|links| - 1];
      if LinkPartOfSite(env, last, rootTLDPlusOne) then kept + [last] else kept
  }

  /** A link survives the filter exactly when it is in the input and part of the site. */
  lemma {:induction false} SiteLinksMembers(env: Env, links: seq<Url>, rootTLDPlusOne: string, x: Url)
    ensures x in SiteLinks(env, links, rootTLDPlusOne) <==> x in links && LinkPartOfSite(env, x, rootTLDPlusOne)
    decreases |links|
  {
    if links != [] {
      var init := links[..|links| - 1];
      SiteLinksMembers(env, init, rootTLDPlusOne, x);
      assert links == init + [links[|links| - 1]];
    }
  }

  /** Filtering a concatenation filters each part and keeps them in order. */
  lemma {:induction false} SiteLinksAppend(env: Env, a: seq<Url>, b: seq<Url>, rootTLDPlusOne: string)
    ensures SiteLinks(env, a + b, rootTLDPlusOne) == SiteLinks(env, a, rootTLDPlusOne) + SiteLinks(env, b, rootTLDPlusOne)
    decreases |b|
  {
    if b != [] {
      var init := b[..|b| - 1];
      assert (a + b)[..|a + b| - 1] == a + init;
      assert (a + b)[|a + b| - 1] == b[|b| - 1];
      SiteLinksAppend(env, a, init, rootTLDPlusOne);
    } else {
      assert a + b == a;
    }
  }

  /** Links that are all part of the site pass the filter unchanged. */
  lemma {:induction false} SiteLinksKeepsSiteLinks(env: Env, links: seq<Url>, rootTLDPlusOne: string)
    requires forall x :: x in links ==> LinkPartOfSite(env, x, rootTLDPlusOne)
    ensures SiteLinks(env, links, rootTLDPlusOne) == links
    decreases |links|
  {
    if links != [] {
      var init := links[..|links| - 1];
      assert forall x :: x in init ==> x in links;
      SiteLinksKeepsSiteLinks(env, init, rootTLDPlusOne);
      assert links == init + [links[|links| - 1]];
    }
  }

  /** Filtering twice is the same as filtering once. */
  lemma SiteLinksIdempotent(env: Env, links: seq<Url>, rootTLDPlusOne: string)
    ensures SiteLinks(env, SiteLinks(env, links, rootTLDPlusOne), rootTLDPlusOne) == SiteLinks(env, links, rootTLDPlusOne)
  {
    SiteLinksKeepsSiteLinks(env, SiteLinks(env, links, rootTLDPlusOne), rootTLDPlusOne);
  }

  /**
   * FilterLinksByHostname: the links that are part of the site, in their
   * original order, built by appending in a loop.
   */
  method FilterLinksByHostname(env: Env, links: seq<Url>, rootTLDPlusOne: string) returns (acceptableLinks: seq<Url>)
    ensures acceptableLinks == SiteLinks(env, links, rootTLDPlusOne)
  {
    acceptableLinks := [];
    for i := 0 to |links|
      invariant acceptableLinks == SiteLinks(env, links[..i], rootTLDPlusOne)
    {
      assert links[..i + 1][..i] == links[..i];
      if LinkPartOfSite(env, links[i], rootTLDPlusOne) {
        acceptableLinks := acceptableLinks + [links[i]];
      }
    }
    assert links[..|links|] == links;
  }
}
