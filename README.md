# go-charlotte sitemap crawler: a Dafny model

go-charlotte crawls a web site from a seed URL to a bounded depth. The result is a
sitemap: a tree whose nodes are the pages found. Each page hangs under the page
that first linked to it. This project models the parts of the crawler that decide
what the tree becomes, and proves properties of them:

- the sitemap (`sitemap/sitemap.go`): setting the root; `AddLeaf`; the level-by-level
  search `getNodesFromDepth`; the merge of one round of fetch results (`addToSiteMap`);
  the depth-bounded crawl loop (`fillSiteMap`);
- the tree node and its text rendering (`sitemap/sitemap_node.go`);
- link normalisation and site filtering (`util/util.go`);
- from `fetch/fetch.go`: `getHref`, and the token loop that turns one fetched page
  into a `JobResult`.

How the Go program is represented:

- **Foreign calls.** The crawler treats URLs through five library calls: `url.URL.String`,
  `publicsuffix.EffectiveTLDPlusOne`, `ResolveReference`, `url.Parse` and `url.URL.Hostname`.
  The first four are the function-valued fields of `Urls.Env` and are never interpreted.
  Every property therefore holds whatever those libraries do. `Hostname` is modelled
  as a read of the `host` field (`Urls.Hostname`): the `Url` datatype keeps the port
  in a field of its own, so the host field is what `Hostname` returns.
- **Hrefs.** Inside `getLinksForSingleURL` the parameter `url` is the page's URL and
  shadows the package `net/url` (fetch/fetch.go:58). The call `url.Parse(link)`
  (fetch/fetch.go:96) is therefore the method `(*url.URL).Parse` of the page's URL:
  `url.Parse` of the href, then `ResolveReference` against the page. `Urls.ParseRef`
  models it. Every link a page yields is resolved against that page, and it is dropped
  exactly when `url.Parse` rejects the href.
- **Fetching.** A round's batch fetch (`fetch.Links`) is a parameter
  `fetch: seq<Url> -> seq<JobResult>`. One page's HTTP response is a
  `Fetch.Response`: either a failed GET or a finite stream of tokenizer tokens.
  `Fetch.LinksAnswers` says what `Links` returns when it returns. Each page's GET answers
  some `page(u)`. Every queued URL gets exactly the JobResult that `getLinksForSingleURL`
  builds from its page. The results come in an order left open, because the jobs run
  concurrently. The crawl needs only one consequence of this, `Fetch.FromQueued`:
  every FromURL `Links` returns was queued. `FillSiteMap` and `MakeSiteMap` require it.
- **Nodes.** The pointer graph of nodes is an arena, `seq<Node>`. Node 0 is
  `RootNode`, and an empty arena is a nil `RootNode`. A child is named by its position.
- **The index.** The URL index `SitemapURLSIndexed` is a `map<string, nat>` from a
  URL's string form to a node id.
- **Parents.** A ghost sequence `parent` names each node's one parent. The invariant
  `SitemapTree.Tree` says every child list is exactly the nodes whose parent is its
  owner, in creation order.
- **The class.** `Sitemap.SiteMap` is a class whose methods update these fields in
  place. `SetRootNode`, `AddLeaf`, `AddLinksFrom`, `AddToSiteMap` and `FillSiteMap` are
  each proved to leave the state a function of module `SitemapSpec` gives on the old
  state. `GetNodesFromDepth` is proved to return the level search of module `SitemapTree`.
  `String` is proved to return the rendering of module `SitemapNode`. The properties of
  the crawl are proved about those functions.

## Model

| member | source | states |
|---|---|---|
| Util.CleanURL | util/util.go:59-62 | the fragment and raw query are cleared; every other field is kept; the link is unchanged exactly when both were already empty |
| Util.CleanURLIdempotent | util/util.go:59-62 | cleaning a cleaned link changes nothing |
| Util.CleanAll | util/util.go:34-38 | same length, and element k is the cleaned form of link k |
| Util.CleanAllIdempotent | util/util.go:34-38 | cleaning a slice twice is the same as once |
| Util.CleanURLS | util/util.go:34-38 | the array, updated in place, holds every link cleaned, in the same positions |
| Util.LinkPartOfSite | util/util.go:46-54 | true exactly when the eTLD+1 of the link's host can be computed and equals the root's |
| Util.UnregistrableNeverPartOfSite | util/util.go:48-52 | a link whose eTLD+1 lookup fails is rejected for every root domain |
| Util.PartOfSiteSymmetric | util/util.go:46-54 | for two registrable hosts, each is part of the other's site exactly when they share a domain |
| Util.SiteLinks | util/util.go:19-28 | no longer than the input, and holds only links that are part of the site |
| Util.SiteLinksMembers | util/util.go:19-28 | a link survives the filter exactly when it is in the input and part of the site |
| Util.SiteLinksAppend | util/util.go:19-28 | filtering a concatenation is the concatenation of the filtered parts, so order is kept |
| Util.SiteLinksKeepsSiteLinks | util/util.go:19-28 | links that are all part of the site pass through unchanged |
| Util.SiteLinksIdempotent | util/util.go:19-28 | filtering twice is the same as once |
| Util.FilterLinksByHostname | util/util.go:19-28 | the appending loop returns exactly the order-preserving site subsequence |
| Fetch.Href | fetch/fetch.go:113-121 | the href of a tag's attributes, defined by recursion on the list; what it is, is stated by HrefIsFirst |
| Fetch.HrefIsFirst | fetch/fetch.go:113-121 | the href is the value of the first attribute keyed "href", and "" when no attribute has that key |
| Fetch.GetHref | fetch/fetch.go:113-121 | the range loop, returning at the first "href", computes that href |
| Fetch.AnchorLinksFrom | fetch/fetch.go:71-106 | at most one link per token from position i on: the token loop's result from that point |
| Fetch.AnchorLinks | fetch/fetch.go:71-106 | at most one link per token of the stream; which links, is stated by AnchorLinksFromAnchors |
| Fetch.AnchorLinksAppend | fetch/fetch.go:71-106 | the links of a stop-free prefix followed by more tokens are the prefix's links, then the rest's |
| Fetch.AnchorLinksAtStop | fetch/fetch.go:75-87 | at the first end-of-stream or parse error the result is the links gathered so far, whatever follows |
| Fetch.AnchorLinksSound | fetch/fetch.go:89-104 | every gathered link is the non-empty href of an "a" start tag that comes before any stop token, parsed and resolved against the page's URL |
| Fetch.AnchorLinksComplete | fetch/fetch.go:89-104 | every such anchor before any stop token contributes its link |
| Fetch.AnchorLinksFromAnchors | fetch/fetch.go:89-104 | a link is gathered exactly when it is the non-empty href of an "a" start tag before the first stop token, parsed and resolved against the page's URL |
| Fetch.ScanLinks | fetch/fetch.go:71-106 | the token loop gathers exactly the anchor links of the page, each resolved against the page's URL, in stream order; an href that does not parse is skipped and the scan goes on |
| Fetch.GetLinksForSingleURL | fetch/fetch.go:58-107 | FromURL is the requested URL; a failed GET gives no links; otherwise the links are those the token loop gathers with the requested URL as the page the hrefs resolve against; together, the result is PageResult of the URL and its response |
| Fetch.PageLinksResolved | fetch/fetch.go:58-101 | every link of a page's result comes from a successful GET and is `resolve(page, v)` for the url.Parse result v of an "a" tag's href on that page |
| Fetch.LinksAnswersQueue | fetch/fetch.go:27-56 | when Links returns one getLinksForSingleURL result per queued URL, there are as many results as queued URLs, each URL's own result is among them, and no FromURL was not queued |
| SitemapNode.Node.AddLeaf | sitemap/sitemap_node.go:41-43 | the URL is kept; the old children are kept in order, and the new child is last |
| SitemapNode.Spaces | sitemap/sitemap_node.go:48-50 | a string of exactly n characters, all spaces |
| SitemapNode.Indent | sitemap/sitemap_node.go:48-50 | depth times IndentSpaces characters, all spaces |
| SitemapNode.Render | sitemap/sitemap_node.go:28-36 | a node's text at a depth: its indented URL line, then each child's text one level deeper; its shape is stated by RenderIsOutline |
| SitemapNode.RenderLinks | sitemap/sitemap_node.go:32-34 | the texts of a node's children from the k-th on, in order; stated by RenderLinksIsOutline |
| SitemapNode.NodeString | sitemap/sitemap_node.go:24-26 | String renders at depth 0; stated by NodeStringFirstLine |
| SitemapNode.StringAt | sitemap/sitemap_node.go:28-36 | the recursive loop that appends each child's text computes the node's rendering at that depth |
| SitemapNode.RenderIsOutline | sitemap/sitemap_node.go:28-36 | the rendering is one indented line per pre-order outline entry: the node, then each child's subtree one level deeper |
| SitemapNode.RenderLinksIsOutline | sitemap/sitemap_node.go:32-34 | the loop over children renders the outline of each child's subtree, in child order |
| SitemapNode.RenderLeaf | sitemap/sitemap_node.go:28-36 | a childless node renders as its indentation, its URL and one newline |
| SitemapNode.NodeStringFirstLine | sitemap/sitemap_node.go:24-26 | String starts at depth 0: the unindented URL line comes first, then the children at depth 1 |
| SitemapNode.RenderFourNodes | sitemap/sitemap_node_test.go:8-31 | the four-node tree of the test renders as four lines indented by 0, 2, 4 and 2 spaces |
| SitemapTree.ChildParent | sitemap/sitemap.go:133-140 | a node in a child list has that list's owner as its parent |
| SitemapTree.InParentList | sitemap/sitemap.go:133-140 | every non-root node is in its parent's child list |
| SitemapTree.ChildrenIncreasing | sitemap/sitemap.go:133-140 | a child list is strictly increasing, that is, in creation order without repeats |
| SitemapTree.TreeShape | sitemap/sitemap.go:133-140 | the three facts above, for all nodes at once |
| SitemapTree.ExactlyOneParent | sitemap/sitemap.go:124-140 | the root is in no child list; every other node is in exactly one child list, exactly once |
| SitemapTree.DepthPrefix | sitemap/sitemap.go:133-140 | creating nodes does not change the depth of the nodes that exist |
| SitemapTree.DepthUnique | sitemap/sitemap.go:133-140 | the child lists fix every node's depth: any two parent records that fit the same tree agree on it |
| SitemapTree.NodesFromDepth | sitemap/sitemap.go:155-172 | getNodesFromDepth: returns only ids of existing nodes; what it returns is stated by NodesFromDepthIsDescend and NodesAtDepthExactly |
| SitemapTree.NodesFromLinks | sitemap/sitemap.go:164-169 | the loop over a node's children: returns only ids of existing nodes |
| SitemapTree.GetNodesFrom | sitemap/sitemap.go:155-172 | the recursion with its appending loop over the children computes the level search |
| SitemapTree.NodesFromDepthIsDescend | sitemap/sitemap.go:155-172 | from a start node, the search returns the nodes depth - currDepth levels below the start, level by level |
| SitemapTree.NodesFromDepthIsLevel | sitemap/sitemap.go:155-172 | from the root, the search is the breadth-first level d, in left-to-right order, and nothing for a negative d |
| SitemapTree.LevelMembers | sitemap/sitemap.go:155-172 | level d holds exactly the nodes d edges below the root |
| SitemapTree.NodesAtDepthExactly | sitemap/sitemap.go:146-172 | getNodesFromDepth(root, 0, d) holds exactly the nodes at depth d |
| SitemapTree.OutlineMembers | sitemap/sitemap_node.go:28-36 | a subtree's outline lists exactly the nodes below its top, each at the start depth plus its distance from the top |
| SitemapTree.OutlineDistinct | sitemap/sitemap_node.go:28-36 | a subtree's outline names no node twice |
| SitemapTree.RootOutline | sitemap/sitemap.go:89-91 | the root's outline has one entry per node, each node once, at its depth |
| SitemapSpec.Target | sitemap/sitemap.go:112-114 | a target without a host name is resolved against the root's URL, any other target is kept; stated by AddLeafOutcomes |
| SitemapSpec.AddLeafSpec | sitemap/sitemap.go:111-141 | the result is added exactly when the arena grew; when nothing was added the state is unchanged; index range and forward links are kept |
| SitemapSpec.AddLeafOutcomes | sitemap/sitemap.go:111-141 | no root, an unindexed from, and an already indexed target each give their own result and change nothing; otherwise the resolved target is the new last, childless node, is appended to from's children, gets an index entry, and no other node changes |
| SitemapSpec.AddLeafGrows | sitemap/sitemap.go:133-140 | AddLeaf loses nothing: every node keeps its URL and its children as a prefix, and every index entry stays |
| SitemapSpec.AddChildKeepsTree | sitemap/sitemap.go:133-140 | appending a fresh childless node as the last child of a node keeps the arena a tree |
| SitemapSpec.AddChildKeepsIndexed | sitemap/sitemap.go:133-140 | filing the fresh key for the new node keeps the index exact |
| SitemapSpec.AddLeafKeepsWellFormed | sitemap/sitemap.go:111-141 | AddLeaf keeps the sitemap a tree with an exact index, and the new node's parent is the from node |
| SitemapSpec.AddLeafTwice | sitemap/sitemap.go:124-131 | once a target is filed, adding it again from any indexed node is (false, no error) and changes nothing |
| SitemapSpec.AddLeafSelfLink | sitemap/sitemap.go:124-131 | linking an indexed node to itself adds nothing and reports no error |
| SitemapSpec.IndexedKeysUnique | sitemap/sitemap.go:119-139 | two different indexed nodes never have URLs with the same string form |
| SitemapSpec.MergeLinks | sitemap/sitemap.go:209-217 | adds at most one node per link; reports new nodes exactly when the arena grew; when nothing is reported the state is unchanged |
| SitemapSpec.MergeJobs | sitemap/sitemap.go:205-220 | reports new nodes exactly when the arena grew; when nothing is reported the state is unchanged |
| SitemapSpec.MergeLinksGrows | sitemap/sitemap.go:209-217 | a merge of links loses no node, child or index entry |
| SitemapSpec.MergeJobsGrows | sitemap/sitemap.go:205-220 | a merge of job results loses no node, child or index entry |
| SitemapSpec.MergeLinksKeepsWellFormed | sitemap/sitemap.go:209-217 | the merge keeps the sitemap invariant, extending the parent record; every node it adds is a child of the node filed under from before the merge |
| SitemapSpec.MergeJobsKeepsWellFormed | sitemap/sitemap.go:205-220 | addToSiteMap keeps the sitemap invariant, extending the parent record; every node it adds is a child of the node filed under one result's FromURL |
| SitemapSpec.MergeLinksWithoutIndex | sitemap/sitemap.go:119-123 | with nothing indexed every AddLeaf fails, so a merge adds nothing |
| SitemapSpec.MergeJobsWithoutIndex | sitemap/sitemap.go:205-220 | with nothing indexed addToSiteMap adds nothing and reports false |
| SitemapSpec.NormaliseJobs | sitemap/sitemap.go:186-189 | one result per job, each with its own FromURL |
| SitemapSpec.NormalisedLinks | sitemap/sitemap.go:186-189 | a link reaches AddLeaf exactly when it has no query or fragment, is part of the site, and is the cleaned form of a link of that page |
| SitemapSpec.FrontierURLs | sitemap/sitemap.go:226-232 | one URL per node id; which URLs, is stated by RoundFetchesLevel |
| SitemapSpec.RootArena | sitemap/sitemap.go:52-65 | the fresh root alone, indexed when its eTLD+1 is known; stated by RootArenaWellFormed and SetRootNode |
| SitemapSpec.RootDomain | sitemap/sitemap.go:58-63 | the root's eTLD+1, or "" when unknown; stated by SetRootNode |
| SitemapSpec.RootArenaWellFormed | sitemap/sitemap.go:52-65 | a fresh root is a well-formed one-node sitemap |
| SitemapSpec.Round | sitemap/sitemap.go:183-190 | a round reports new nodes exactly when it grew the arena; otherwise the state is unchanged |
| SitemapSpec.RoundGrows | sitemap/sitemap.go:183-190 | a round loses no node, child or index entry |
| SitemapSpec.RoundFetchesLevel | sitemap/sitemap.go:183-185 | the URLs handed to the fetcher are exactly those of the nodes at the round's depth |
| SitemapSpec.RoundAddsNextLevel | sitemap/sitemap.go:183-190 | when every fetched FromURL was queued, every node a round adds is one level below the round's depth, and the other nodes keep their depth |
| SitemapSpec.CrawlFrom | sitemap/sitemap.go:181-197 | the final Depth lies between the start depth and the bound; at least one node was added per level passed; at or past the bound nothing happens |
| SitemapSpec.CrawlGrows | sitemap/sitemap.go:181-197 | the crawl loses no node, child or index entry of the state it starts from |
| SitemapSpec.CrawlStopsAtFixpoint | sitemap/sitemap.go:190-193 | if the crawl stops below the bound, the round at the final Depth adds nothing |
| SitemapSpec.CrawlRoundsProductive | sitemap/sitemap.go:190-194 | if the crawl passes a level, that level's round added something and the crawl goes on from its result |
| SitemapSpec.CrawlKeepsWellFormed | sitemap/sitemap.go:181-197 | the whole crawl keeps the sitemap invariant |
| SitemapSpec.CrawlDepthReached | sitemap/sitemap.go:181-197 | when every fetched FromURL was queued and the deepest nodes of the start state are at the start depth, no node is deeper than the final Depth and some node is exactly that deep |
| SitemapSpec.CrawlFromRootDepth | sitemap/sitemap.go:71-84 | from a fresh root, with every fetched FromURL queued, the final Depth is exactly the depth of the deepest node |
| SitemapSpec.CrawlWithoutIndex | sitemap/sitemap.go:58-62 | with nothing indexed the crawl adds nothing and stops at its start depth |
| SitemapSpec.UnregistrableSeedUnpopulated | sitemap/sitemap.go:58-62 | a seed whose eTLD+1 is unknown gives the root alone and a final Depth of 0, whatever is fetched |
| Sitemap.SiteMap.constructor | sitemap/sitemap.go:72-74 | an empty sitemap with the requested Depth: no root, nothing indexed |
| Sitemap.SiteMap.SetRootNode | sitemap/sitemap.go:48-66 | refused, changing nothing, when a root exists; otherwise the state becomes RootArena: the root is set, and the domain is recorded and the root indexed exactly when its eTLD+1 is known, which is what it returns |
| Sitemap.SiteMap.AddLeaf | sitemap/sitemap.go:111-141 | returns and leaves exactly what AddLeafSpec gives on the old state, keeping the invariant |
| Sitemap.SiteMap.GetNodesFromDepth | sitemap/sitemap.go:146-148 | exactly the nodes at depth d, in breadth-first order; nothing for a negative d |
| Sitemap.SiteMap.GetURLsFromNodeSlice | sitemap/sitemap.go:226-232 | one URL per node, in order, each the URL of that node |
| Sitemap.SiteMap.AddLinksFrom | sitemap/sitemap.go:209-217 | exactly MergeLinks on the old state, keeping the invariant |
| Sitemap.SiteMap.AddToSiteMap | sitemap/sitemap.go:205-220 | exactly MergeJobs on the old state, keeping the invariant |
| Sitemap.SiteMap.FillSiteMap | sitemap/sitemap.go:177-198 | exactly CrawlFrom from depth 0 on the old state; Depth becomes the final checkDepth; the fetch answers only queued URLs |
| Sitemap.SiteMap.String | sitemap/sitemap.go:89-91 | the root's rendering: one line per node, each node once, indented by its depth |
| Sitemap.MakeSiteMap | sitemap/sitemap.go:71-84 | a seed that fails to parse gives an empty sitemap with the requested Depth; otherwise the result is the crawl from the parsed seed as root, and its Depth is exactly the depth of its deepest node |
| Sitemap.NormaliseJobResults | sitemap/sitemap.go:186-189 | each result's links are cleaned in place and then filtered to the site, giving exactly NormaliseJobs |

## Left out

- `fetch.Links` and `linkConsumer` (fetch/fetch.go:27-56, 128-134): goroutines, channels and wait groups. They are not modelled; the batch fetch is a parameter, constrained by `Fetch.LinksAnswers` or `Fetch.FromQueued`. The order in which the jobs finish is left open. On a failed GET (fetch/fetch.go:62-66) and on a tokenizer error other than EOF (fetch/fetch.go:84-87), `getLinksForSingleURL` returns without `wg.Done()`. `Links` would then wait forever. The model makes no claim that `Links` returns.
- Fetch.GetLinksForSingleURL: sending the result on the channel and the deferred `Body.Close` are left out, because they are concurrency and I/O.
- The HTTP client, its timeout, and the HTML tokenizer are not modelled. A GET either fails or yields a finite token stream. Running off the end of that stream counts as end of stream.
- JSON output, the `CreatedAt` and `FinishedAt` timestamps, and logging are left out, because they are I/O and clocks.
- `main.go` is not part of this model.
- `sitemap/sitemap-node.go` is left out because it duplicates `sitemap/sitemap_node.go`.
- `SitemapURLSIndexed` is package-global in Go and so shared by every SiteMap of a process. Here it is a field, one index per sitemap, which is the one-crawl-per-process use of `main.go`.
- Pointers are not modelled; URLs and nodes are values. `CleanURLS` then does not clean a URL shared with another slice. `getNodesFromDepth` returns node ids rather than pointers to copied nodes.
- Only the `url.URL` fields the crawler touches are modelled. `RawFragment` and `OmitHost` are omitted.
- Sitemap.SiteMap.AddLeaf: requires a root or a target with a host name. Go resolves a host-less target through `s.RootNode` before its nil check, so without a root it dereferences nil.
- Sitemap.SiteMap.FillSiteMap: requires a root although Go only dereferences it when Depth > 0. Its only caller, `MakeSiteMap`, sets the root first.
- Sitemap.SiteMap.GetNodesFromDepth: requires a root, as Go dereferences `s.RootNode`.
- Sitemap.SiteMap.String: requires a root. Go calls `String` on `s.RootNode`, and `string` reads that node's URL (sitemap/sitemap.go:89-91, sitemap/sitemap_node.go:30). On a nil root that is a nil dereference. `MakeSiteMap` returns such a sitemap for a seed that does not parse.
- Sitemap.SiteMap.FillSiteMap and Sitemap.MakeSiteMap: require `Fetch.FromQueued` of the batch fetch, which `fetch.Links` meets whenever it returns. `SitemapSpec.Round` and `SitemapSpec.CrawlFrom` accept any batch fetch. Their depth properties (`RoundAddsNextLevel`, `CrawlDepthReached`) carry `FromQueued` as a hypothesis.
- SitemapNode.Indent: the depth is a `nat`, so the panic of `strings.Repeat` on a negative count is not modelled; every depth the rendering uses is non-negative.
- Go's 64-bit `int` is modelled as an unbounded integer, so the wrap-around of `checkDepth` and `Depth` is not modelled.

## Notes on the code

- Every href is resolved against the page it was found on before it leaves `getLinksForSingleURL` (fetch/fetch.go:58, 96), so a relative link reaches `LinkPartOfSite` with the page's host name. AddLeaf's own resolution against the root's URL (sitemap/sitemap.go:112-114) applies only to links that still have no host name after that, such as a `mailto:` link. The model keeps both steps.
- When the seed's eTLD+1 cannot be computed, `SetRootNode` sets the root but leaves it unindexed (sitemap/sitemap.go:58-62). Every later AddLeaf then fails with "from node is not in sitemap", and the crawl returns the root alone with Depth 0 (`SitemapSpec.UnregistrableSeedUnpopulated`).
