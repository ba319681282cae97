/**
 * The shape of the sitemap tree and the queries over it (sitemap/sitemap.go):
 * the arborescence invariant, the depth of a node, getNodesFromDepth, and
 * what the pre-order rendering of the whole tree contains.
 *
 * `parent` is ghost bookkeeping: parent[i] is the node whose child list
 * holds node i (parent[0] is unused). The source keeps no parent pointers;
 * the sequence only names the one parent the invariant promises.
 */
module SitemapTree {
  import opened Seqs
  import opened SitemapNode

  ghost predicate ParentsBefore(parent: seq<nat>)
  {
    forall i :: 0 < i < |parent| ==> parent[i] < i
  }

  /**
   * The non-root nodes below n whose parent is p, in the order they were
   * created: what p's child list holds once nodes 0 .. n-1 exist.
   */
  ghost function Kids(parent: seq<nat>, p: nat, n: nat): seq<nat>
    requires n <= |parent|
  {
    if n <= 1 then [] else Kids(parent, p, n - 1) + (if parent[n - 1] == p then [n - 1] else [])
  }

  /** Kids lists exactly the non-root nodes whose parent is p. */
  lemma {:induction false} KidsMembers(parent: seq<nat>, p: nat, n: nat)
    requires n <= |parent|
    ensures forall x :: x in Kids(parent, p, n) <==> 0 < x < n && parent[x] == p
  {
    if n > 1 {
      KidsMembers(parent, p, n - 1);
    }
  }

  /** Kids lists them in increasing order, that is, in the order they were created. */
  lemma {:induction false} KidsIncreasing(parent: seq<nat>, p: nat, n: nat)
    requires n <= |parent|
    ensures forall j, k :: 0 <= j < k < |Kids(parent, p, n)| ==> Kids(parent, p, n)[j] < Kids(parent, p, n)[k]
  {
    if n > 1 {
      KidsIncreasing(parent, p, n - 1);
      KidsMembers(parent, p, n - 1);
      var r := Kids(parent, p, n - 1);
      assert forall j :: 0 <= j < |r| ==> r[j] in r;
    }
  }

  /** A node has no children among the nodes created no later than itself. */
  lemma {:induction false} KidsNone(parent: seq<nat>, p: nat, n: nat)
    requires n <= |parent| && ParentsBefore(parent) && n <= p + 1
    ensures Kids(parent, p, n) == []
  {
    if n > 1 {
      KidsNone(parent, p, n - 1);
    }
  }

  /** Creating more nodes does not change who the first n nodes' children are. */
  lemma {:induction false} KidsPrefix(parent: seq<nat>, more: seq<nat>, p: nat, n: nat)
    requires n <= |parent|
    ensures Kids(parent + more, p, n) == Kids(parent, p, n)
  {
    if n > 1 {
      KidsPrefix(parent, more, p, n - 1);
    }
  }

  /**
   * The arena is a tree rooted at node 0: child ids point forward, every
   * node is created after its parent, and each node's child list is exactly
   * the nodes whose parent it is, in the order they were created. The root
   * is nobody's child.
   */
  ghost predicate Tree(nodes: seq<Node>, parent: seq<nat>)
  {
    && |parent| == |nodes|
    && LinksForward(nodes)
    && ParentsBefore(parent)
    && forall p {:trigger Kids(parent, p, |nodes|)} :: 0 <= p < |nodes| ==> nodes[p].linksTo == Kids(parent, p, |nodes|)
  }

  /** A child names its list's owner as its parent. */
  lemma ChildParent(nodes: seq<Node>, parent: seq<nat>, p: nat, k: nat)
    requires Tree(nodes, parent) && p < |nodes| && k < |nodes[p].linksTo|
    ensures parent[nodes[p].linksTo[k]] == p
  {
    KidsMembers(parent, p, |nodes|);
    assert nodes[p].linksTo[k] in nodes[p].linksTo;
  }

  /** A non-root node is in its parent's child list. */
  lemma InParentList(nodes: seq<Node>, parent: seq<nat>, i: nat)
    requires Tree(nodes, parent) && 0 < i < |nodes|
    ensures i in nodes[parent[i]].linksTo
  {
    KidsMembers(parent, parent[i], |nodes|);
  }

  /** A child list is in increasing order, so holds no node twice. */
  lemma ChildrenIncreasing(nodes: seq<Node>, parent: seq<nat>, p: nat)
    requires Tree(nodes, parent) && p < |nodes|
    ensures forall j, k :: 0 <= j < k < |nodes[p].linksTo| ==> nodes[p].linksTo[j] < nodes[p].linksTo[k]
  {
    KidsIncreasing(parent, p, |nodes|);
    assert nodes[p].linksTo == Kids(parent, p, |nodes|);
  }

  /**
   * In a tree every non-root node is in its parent's child list, every
   * child names its list's owner as parent, and each list is in increasing
   * order, so holds no node twice.
   */
  lemma TreeShape(nodes: seq<Node>, parent: seq<nat>)
    requires Tree(nodes, parent)
    ensures forall i :: 0 < i < |nodes| ==> i in nodes[parent[i]].linksTo
    ensures forall p, k :: 0 <= p < |nodes| && 0 <= k < |nodes[p].linksTo| ==> parent[nodes[p].linksTo[k]] == p
    ensures forall p, j, k :: 0 <= p < |nodes| && 0 <= j < k < |nodes[p].linksTo| ==> nodes[p].linksTo[j] < nodes[p].linksTo[k]
  {
    forall i | 0 < i < |nodes| {
      InParentList(nodes, parent, i);
    }
    forall p, k | 0 <= p < |nodes| && 0 <= k < |nodes[p].linksTo| {
      ChildParent(nodes, parent, p, k);
    }
    forall p | 0 <= p < |nodes| {
      ChildrenIncreasing(nodes, parent, p);
    }
  }

  /**
   * Every non-root node is in exactly one child list, exactly once, and the
   * root is in none.
   */
  lemma ExactlyOneParent(nodes: seq<Node>, parent: seq<nat>, i: nat)
    requires Tree(nodes, parent) && i < |nodes|
    ensures i == 0 ==> forall p, k :: 0 <= p < |nodes| && 0 <= k < |nodes[p].linksTo| ==> nodes[p].linksTo[k] != i
    ensures i > 0 ==> exists k :: 0 <= k < |nodes[parent[i]].linksTo| && nodes[parent[i]].linksTo[k] == i
    ensures forall p, j, k ::
              (0 <= p < |nodes| && 0 <= j < |nodes[p].linksTo| && 0 <= k < |nodes[p].linksTo|
               && nodes[p].linksTo[j] == i && nodes[p].linksTo[k] == i) ==> p == parent[i] && j == k
  {
    TreeShape(nodes, parent);
    if i > 0 {
      var p := parent[i];
      assert i in nodes[p].linksTo;
      var k :| 0 <= k < |nodes[p].linksTo| && nodes[p].linksTo[k] == i;
    }
  }

  /** The number of edges from the root down to node i. */
  ghost function Depth(parent: seq<nat>, i: nat): nat
    requires i < |parent| && ParentsBefore(parent)
    decreases i
  {
    if i == 0 then 0 else Depth(parent, parent[i]) + 1
  }

  /** The ancestor of node i at depth e (i itself when e is i's depth). */
  ghost function AncAtDepth(parent: seq<nat>, i: nat, e: nat): (a: nat)
    requires i < |parent| && ParentsBefore(parent) && e <= Depth(parent, i)
    ensures a < |parent| && Depth(parent, a) == e
    decreases i
  {
    if Depth(parent, i) == e then i else AncAtDepth(parent, parent[i], e)
  }

  /** One level further down the ancestor chain is a child of the level above. */
  lemma {:induction false} AncStep(parent: seq<nat>, i: nat, e: nat)
    requires i < |parent| && ParentsBefore(parent) && e < Depth(parent, i)
    ensures AncAtDepth(parent, i, e + 1) != 0
    ensures parent[AncAtDepth(parent, i, e + 1)] == AncAtDepth(parent, i, e)
    decreases i
  {
    if Depth(parent, i) != e + 1 {
      AncStep(parent, parent[i], e);
    }
  }

  /** Creating more nodes does not change the depth of the nodes that exist. */
  lemma {:induction false} DepthPrefix(parent: seq<nat>, parent': seq<nat>, i: nat)
    requires ParentsBefore(parent') && parent <= parent' && i < |parent|
    ensures ParentsBefore(parent) && Depth(parent', i) == Depth(parent, i)
    decreases i
  {
    assert forall k :: 0 <= k < |parent| ==> parent[k] == parent'[k];
    if i > 0 {
      DepthPrefix(parent, parent', parent[i]);
    }
  }

  /**
   * The tree fixes every node's depth: two parent sequences that both fit
   * the same arena give each node the same depth.
   */
  lemma {:induction false} DepthUnique(nodes: seq<Node>, parent: seq<nat>, parent': seq<nat>, i: nat)
    requires Tree(nodes, parent) && Tree(nodes, parent') && i < |nodes|
    ensures Depth(parent, i) == Depth(parent', i)
    decreases i
  {
    if i > 0 {
      InParentList(nodes, parent, i);
      var k :| 0 <= k < |nodes[parent[i]].linksTo| && nodes[parent[i]].linksTo[k] == i;
      ChildParent(nodes, parent', parent[i], k);
      DepthUnique(nodes, parent, parent', parent[i]);
    }
  }

  /**
   * getNodesFromDepth(start, currDepth, depth): `start` itself when the
   * current depth is the one asked for, the nodes found from each child one
   * level deeper while it is smaller, and nothing once it is larger.
   */
  function NodesFromDepth(nodes: seq<Node>, start: nat, currDepth: int, depth: int): (r: seq<nat>)
    requires start < |nodes| && LinksForward(nodes)
    ensures forall x :: x in r ==> x < |nodes|
    decreases depth - currDepth, 0
  {
    if currDepth == depth then [start]
    else if currDepth < depth then NodesFromLinks(nodes, start, 0, currDepth + 1, depth)
    else []
  }

  /** The loop over start's children from the k-th on, each explored at currDepth. */
  function NodesFromLinks(nodes: seq<Node>, start: nat, k: nat, currDepth: int, depth: int): (r: seq<nat>)
    requires start < |nodes| && LinksForward(nodes) && k <= |nodes[start].linksTo|
    ensures forall x :: x in r ==> x < |nodes|
    decreases depth - currDepth, |nodes[start].linksTo| - k + 1
  {
    if k == |nodes[start].linksTo| then []
    else NodesFromDepth(nodes, nodes[start].linksTo[k], currDepth, depth) + NodesFromLinks(nodes, start, k + 1, currDepth, depth)
  }

  /**
   * getNodesFromDepth as the program runs it: recursion on the children,
   * each child's findings appended in a loop.
   */
  method GetNodesFrom(nodes: seq<Node>, start: nat, currDepth: int, depth: int) returns (nodesFound: seq<nat>)
    requires start < |nodes| && LinksForward(nodes)
    ensures nodesFound == NodesFromDepth(nodes, start, currDepth, depth)
    decreases depth - currDepth
  {
    nodesFound := [];
    if currDepth == depth {
      return [start];
    }
    if currDepth < depth {
      var links := nodes[start].linksTo;
      for i := 0 to |links|
        invariant nodesFound + NodesFromLinks(nodes, start, i, currDepth + 1, depth) == NodesFromLinks(nodes, start, 0, currDepth + 1, depth)
      {
        var found := GetNodesFrom(nodes, links[i], currDepth + 1, depth);
        AppendAssoc(nodesFound, found, NodesFromLinks(nodes, start, i + 1, currDepth + 1, depth));
        nodesFound := nodesFound + found;
      }
      assert nodesFound + [] == nodesFound;
    }
  }

  /** The children of the given nodes, in order: one breadth-first step. */
  function ChildrenOf(nodes: seq<Node>, ids: seq<nat>): (r: seq<nat>)
    requires LinksForward(nodes) && forall x :: x in ids ==> x < |nodes|
    ensures forall x :: x in r ==> x < |nodes|
  {
    if ids == [] then []
    else
      assert ids[0] in ids && forall x :: x in ids[1..] ==> x in ids;
      nodes[ids[0]].linksTo + ChildrenOf(nodes, ids[1..])
  }

  /** The nodes m levels below the given ones, level by level, left to right. */
  function Descend(nodes: seq<Node>, ids: seq<nat>, m: nat): (r: seq<nat>)
    requires LinksForward(nodes) && forall x :: x in ids ==> x < |nodes|
    ensures forall x :: x in r ==> x < |nodes|
    decreases m
  {
    if m == 0 then ids else Descend(nodes, ChildrenOf(nodes, ids), m - 1)
  }

  /** The d-th level of the tree in breadth-first order: the reference for getNodesFromDepth. */
  function Level(nodes: seq<Node>, d: nat): (r: seq<nat>)
    requires |nodes| > 0 && LinksForward(nodes)
    ensures forall x :: x in r ==> x < |nodes|
  {
    Descend(nodes, [0], d)
  }

  lemma {:induction false} ChildrenOfAppend(nodes: seq<Node>, a: seq<nat>, b: seq<nat>)
    requires LinksForward(nodes) && (forall x :: x in a ==> x < |nodes|) && (forall x :: x in b ==> x < |nodes|)
    ensures ChildrenOf(nodes, a + b) == ChildrenOf(nodes, a) + ChildrenOf(nodes, b)
  {
    if a == [] {
      assert a + b == b;
    } else {
      assert (a + b)[0] == a[0];
      assert (a + b)[1..] == a[1..] + b;
      assert a[0] in a && forall x :: x in a[1..] ==> x in a;
      ChildrenOfAppend(nodes, a[1..], b);
    }
  }

  lemma {:induction false} DescendAppend(nodes: seq<Node>, a: seq<nat>, b: seq<nat>, m: nat)
    requires LinksForward(nodes) && (forall x :: x in a ==> x < |nodes|) && (forall x :: x in b ==> x < |nodes|)
    ensures Descend(nodes, a + b, m) == Descend(nodes, a, m) + Descend(nodes, b, m)
    decreases m
  {
    if m > 0 {
      ChildrenOfAppend(nodes, a, b);
      DescendAppend(nodes, ChildrenOf(nodes, a), ChildrenOf(nodes, b), m - 1);
    }
  }

  lemma {:induction false} DescendEmpty(nodes: seq<Node>, m: nat)
    requires LinksForward(nodes)
    ensures Descend(nodes, [], m) == []
    decreases m
  {
    if m > 0 {
      DescendEmpty(nodes, m - 1);
    }
  }

  /** From `start` at currDepth, getNodesFromDepth returns the nodes depth - currDepth levels below start. */
  lemma {:induction false} NodesFromDepthIsDescend(nodes: seq<Node>, start: nat, currDepth: int, depth: int)
    requires start < |nodes| && LinksForward(nodes) && currDepth <= depth
    ensures NodesFromDepth(nodes, start, currDepth, depth) == Descend(nodes, [start], depth - currDepth)
    decreases depth - currDepth, 0
  {
    if currDepth < depth {
      var links := nodes[start].linksTo;
      NodesFromLinksIsDescend(nodes, start, 0, currDepth + 1, depth);
      assert links[0..] == links;
      assert ChildrenOf(nodes, [start]) == links by {
        assert [start][1..] == [];
        assert links + [] == links;
      }
    }
  }

  lemma {:induction false} NodesFromLinksIsDescend(nodes: seq<Node>, start: nat, k: nat, currDepth: int, depth: int)
    requires start < |nodes| && LinksForward(nodes) && k <= |nodes[start].linksTo| && currDepth <= depth
    ensures NodesFromLinks(nodes, start, k, currDepth, depth) == Descend(nodes, nodes[start].linksTo[k..], depth - currDepth)
    decreases depth - currDepth, |nodes[start].linksTo| - k + 1
  {
    var links := nodes[start].linksTo;
    if k == |links| {
      assert links[k..] == [];
      DescendEmpty(nodes, depth - currDepth);
    } else {
      NodesFromDepthIsDescend(nodes, links[k], currDepth, depth);
      NodesFromLinksIsDescend(nodes, start, k + 1, currDepth, depth);
      assert links[k..] == [links[k]] + links[k + 1..];
      DescendAppend(nodes, [links[k]], links[k + 1..], depth - currDepth);
    }
  }

  /**
   * GetNodesFromDepth(d) walks the tree depth-first yet returns exactly the
   * d-th breadth-first level, in left-to-right order; for a negative d it
   * returns nothing.
   */
  lemma NodesFromDepthIsLevel(nodes: seq<Node>, d: int)
    requires |nodes| > 0 && LinksForward(nodes)
    ensures d < 0 ==> NodesFromDepth(nodes, 0, 0, d) == []
    ensures d >= 0 ==> NodesFromDepth(nodes, 0, 0, d) == Level(nodes, d)
  {
    if d >= 0 {
      NodesFromDepthIsDescend(nodes, 0, 0, d);
    }
  }

  /** A node is a child of one of the given nodes exactly when its parent is one of them. */
  lemma {:induction false} ChildrenOfMembers(nodes: seq<Node>, parent: seq<nat>, ids: seq<nat>, y: nat)
    requires Tree(nodes, parent) && forall x :: x in ids ==> x < |nodes|
    ensures y in ChildrenOf(nodes, ids) <==> 0 < y < |nodes| && parent[y] in ids
  {
    if ids != [] {
      assert ids[0] in ids && forall x :: x in ids[1..] ==> x in ids;
      ChildrenOfMembers(nodes, parent, ids[1..], y);
      var links := nodes[ids[0]].linksTo;
      if y in links {
        var k :| 0 <= k < |links| && links[k] == y;
        ChildParent(nodes, parent, ids[0], k);
      }
      if 0 < y < |nodes| && parent[y] == ids[0] {
        InParentList(nodes, parent, y);
      }
      assert ids == [ids[0]] + ids[1..];
    }
  }

  /** A node is m levels below the given nodes exactly when its ancestor m levels up is one of them. */
  lemma {:induction false} DescendMembers(nodes: seq<Node>, parent: seq<nat>, ids: seq<nat>, m: nat, x: nat)
    requires Tree(nodes, parent) && forall y :: y in ids ==> y < |nodes|
    ensures x in Descend(nodes, ids, m)
            <==> x < |nodes| && m <= Depth(parent, x) && AncAtDepth(parent, x, Depth(parent, x) - m) in ids
    decreases m
  {
    if m > 0 {
      var kids := ChildrenOf(nodes, ids);
      DescendMembers(nodes, parent, kids, m - 1, x);
      if x < |nodes| && m - 1 <= Depth(parent, x) {
        var a := AncAtDepth(parent, x, Depth(parent, x) - (m - 1));
        ChildrenOfMembers(nodes, parent, ids, a);
        if m <= Depth(parent, x) {
          AncStep(parent, x, Depth(parent, x) - m);
        } else {
          assert a == 0 by {
            assert Depth(parent, a) == 0;
          }
        }
      }
    }
  }

  /** The d-th level holds exactly the nodes at depth d. */
  lemma LevelMembers(nodes: seq<Node>, parent: seq<nat>, d: nat, x: nat)
    requires Tree(nodes, parent) && |nodes| > 0
    ensures x in Level(nodes, d) <==> x < |nodes| && Depth(parent, x) == d
  {
    DescendMembers(nodes, parent, [0], d, x);
    if x < |nodes| && d <= Depth(parent, x) {
      var a := AncAtDepth(parent, x, Depth(parent, x) - d);
      assert a == 0 <==> Depth(parent, x) == d by {
        assert Depth(parent, a) == Depth(parent, x) - d;
      }
    }
  }

  /**
   * getNodesFromDepth(root, 0, d) returns exactly the nodes d edges below
   * the root: none when d is negative or larger than the tree's height.
   */
  lemma NodesAtDepthExactly(nodes: seq<Node>, parent: seq<nat>, d: int)
    requires Tree(nodes, parent) && |nodes| > 0
    ensures forall x: nat :: x in NodesFromDepth(nodes, 0, 0, d) <==> x < |nodes| && Depth(parent, x) == d
  {
    NodesFromDepthIsLevel(nodes, d);
    if d >= 0 {
      forall x: nat
        ensures x in Level(nodes, d) <==> x < |nodes| && Depth(parent, x) == d
      {
        LevelMembers(nodes, parent, d, x);
      }
    }
  }

  /** Node x lies in the subtree of y. */
  ghost predicate Below(parent: seq<nat>, x: nat, y: nat)
    requires x < |parent| && y < |parent| && ParentsBefore(parent)
  {
    Depth(parent, y) <= Depth(parent, x) && AncAtDepth(parent, x, Depth(parent, y)) == y
  }

  /**
   * The outline of y's subtree lists exactly the nodes below y, each at the
   * starting depth plus its distance from y.
   */
  lemma {:induction false} OutlineMembers(nodes: seq<Node>, parent: seq<nat>, y: nat, d: nat, e: Entry)
    requires Tree(nodes, parent) && y < |nodes|
    ensures e in Outline(nodes, y, d)
            <==> e.id < |nodes| && Below(parent, e.id, y) && e.depth == d + Depth(parent, e.id) - Depth(parent, y)
    decreases |nodes| - y, 1
  {
    var x := e.id;
    OutlineLinksMembers(nodes, parent, y, 0, d + 1, e);
    var links := nodes[y].linksTo;
    assert links[0..] == links;
    if x < |nodes| && Depth(parent, y) < Depth(parent, x) {
      var a := AncAtDepth(parent, x, Depth(parent, y) + 1);
      AncStep(parent, x, Depth(parent, y));
      if a in links {
        var k :| 0 <= k < |links| && links[k] == a;
        ChildParent(nodes, parent, y, k);
      }
      if AncAtDepth(parent, x, Depth(parent, y)) == y {
        InParentList(nodes, parent, a);
      }
    }
  }

  lemma {:induction false} OutlineLinksMembers(nodes: seq<Node>, parent: seq<nat>, y: nat, k: nat, d: nat, e: Entry)
    requires Tree(nodes, parent) && y < |nodes| && k <= |nodes[y].linksTo|
    ensures e in OutlineLinks(nodes, y, k, d)
            <==> e.id < |nodes| && Depth(parent, y) < Depth(parent, e.id)
                 && AncAtDepth(parent, e.id, Depth(parent, y) + 1) in nodes[y].linksTo[k..]
                 && e.depth + 1 + Depth(parent, y) == d + Depth(parent, e.id)
    decreases |nodes| - y, 0, |nodes[y].linksTo| - k
  {
    var links := nodes[y].linksTo;
    if k == |links| {
      assert links[k..] == [];
    } else {
      var c := links[k];
      ChildParent(nodes, parent, y, k);
      assert Depth(parent, c) == Depth(parent, y) + 1;
      OutlineMembers(nodes, parent, c, d, e);
      OutlineLinksMembers(nodes, parent, y, k + 1, d, e);
      assert links[k..] == [c] + links[k + 1..];
    }
  }

  /** No two entries of a sequence name the same node. */
  ghost predicate DistinctIds(entries: seq<Entry>)
  {
    forall i, j :: 0 <= i < j < |entries| ==> entries[i].id != entries[j].id
  }

  lemma DistinctIdsAppend(a: seq<Entry>, b: seq<Entry>)
    requires DistinctIds(a) && DistinctIds(b)
    requires forall e1, e2 :: e1 in a && e2 in b ==> e1.id != e2.id
    ensures DistinctIds(a + b)
  {
    forall i, j | 0 <= i < j < |a + b|
      ensures (a + b)[i].id != (a + b)[j].id
    {
      if i < |a| && j >= |a| {
        assert (a + b)[i] in a && (a + b)[j] in b;
      }
    }
  }

  /** The outline of a subtree names each of its nodes once. */
  lemma {:induction false} OutlineDistinct(nodes: seq<Node>, parent: seq<nat>, y: nat, d: nat)
    requires Tree(nodes, parent) && y < |nodes|
    ensures DistinctIds(Outline(nodes, y, d))
    decreases |nodes| - y, 1
  {
    var rest := OutlineLinks(nodes, y, 0, d + 1);
    OutlineLinksDistinct(nodes, parent, y, 0, d + 1);
    forall e2 | e2 in rest
      ensures e2.id != y
    {
      OutlineLinksMembers(nodes, parent, y, 0, d + 1, e2);
    }
    DistinctIdsAppend([Entry(y, d)], rest);
  }

  lemma {:induction false} OutlineLinksDistinct(nodes: seq<Node>, parent: seq<nat>, y: nat, k: nat, d: nat)
    requires Tree(nodes, parent) && y < |nodes| && k <= |nodes[y].linksTo|
    ensures DistinctIds(OutlineLinks(nodes, y, k, d))
    decreases |nodes| - y, 0, |nodes[y].linksTo| - k
  {
    var links := nodes[y].linksTo;
    if k < |links| {
      var c := links[k];
      ChildParent(nodes, parent, y, k);
      assert Depth(parent, c) == Depth(parent, y) + 1;
      var first := Outline(nodes, c, d);
      var rest := OutlineLinks(nodes, y, k + 1, d);
      OutlineDistinct(nodes, parent, c, d);
      OutlineLinksDistinct(nodes, parent, y, k + 1, d);
      ChildrenIncreasing(nodes, parent, y);
      assert c !in links[k + 1..];
      forall e1, e2 | e1 in first && e2 in rest
        ensures e1.id != e2.id
      {
        OutlineMembers(nodes, parent, c, d, e1);
        OutlineLinksMembers(nodes, parent, y, k + 1, d, e2);
      }
      DistinctIdsAppend(first, rest);
    }
  }

  function IdSet(entries: seq<Entry>): set<nat>
  {
    set e | e in entries :: e.id
  }

  lemma {:induction false} DistinctIdsCount(entries: seq<Entry>)
    requires DistinctIds(entries)
    ensures |IdSet(entries)| == |entries|
  {
    if entries != [] {
      var rest := entries[1..];
      assert DistinctIds(rest);
      DistinctIdsCount(rest);
      assert IdSet(entries) == {entries[0].id} + IdSet(rest);
      assert entries[0].id !in IdSet(rest);
    }
  }

  /** The ids 0 .. n-1. */
  function Range(n: nat): (r: set<nat>)
    ensures forall x: nat :: x in r <==> x < n
    ensures |r| == n
  {
    if n == 0 then {} else Range(n - 1) + {n - 1}
  }

  /**
   * The outline of the whole tree, which String renders line by line,
   * names every node exactly once, at its depth: the rendering has one line
   * per node, indented by twice the node's depth.
   */
  lemma RootOutline(nodes: seq<Node>, parent: seq<nat>)
    requires Tree(nodes, parent) && |nodes| > 0
    ensures forall e :: e in Outline(nodes, 0, 0) <==> e.id < |nodes| && e.depth == Depth(parent, e.id)
    ensures DistinctIds(Outline(nodes, 0, 0))
    ensures |Outline(nodes, 0, 0)| == |nodes|
  {
    var o := Outline(nodes, 0, 0);
    forall e
      ensures e in o <==> e.id < |nodes| && e.depth == Depth(parent, e.id)
    {
      OutlineMembers(nodes, parent, 0, 0, e);
      if e.id < |nodes| {
        assert AncAtDepth(parent, e.id, 0) == 0 by {
          assert Depth(parent, AncAtDepth(parent, e.id, 0)) == 0;
        }
      }
    }
    OutlineDistinct(nodes, parent, 0, 0);
    DistinctIdsCount(o);
    assert IdSet(o) == Range(|nodes|) by {
      forall x: nat | x in Range(|nodes|)
        ensures x in IdSet(o)
      {
        assert Entry(x, Depth(parent, x)) in o;
      }
    }
  }
}
