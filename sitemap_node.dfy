/**
 * Sitemap nodes and their text rendering (sitemap/sitemap_node.go).
 *
 * Nodes live in an arena: a sequence of node records in which a node's
 * children are named by their positions. Node 0 is the root. Children are
 * always created after their parent, so every child id is larger than its
 * parent's (`LinksForward`), which is what makes the recursive rendering
 * terminate.
 */
module SitemapNode {
  import opened Urls
  import opened Seqs

  /** The number of spaces per level of indentation (sitemap/sitemap.go). */
  const IndentSpaces: nat := 2

  /** A discovered page: its URL and the ids of the pages first reached from it. */
  datatype Node = Node(url: Url, linksTo: seq<nat>) {

    /** AddLeaf: the node with one more child, the given one, after the existing ones. */
    function AddLeaf(leaf: nat): (n: Node)
      ensures n.url == url
      ensures |n.linksTo| == |linksTo| + 1 && n.linksTo[|linksTo|] == leaf
      ensures n.linksTo[..|linksTo|] == linksTo
    {
      Node(url, linksTo + [leaf])
    }
  }

  /** Every child id is larger than its parent's and names a node of the arena. */
  ghost predicate LinksForward(nodes: seq<Node>)
  {
    forall p, k :: 0 <= p < |nodes| && 0 <= k < |nodes[p].linksTo| ==> p < nodes[p].linksTo[k] < |nodes|
  }

  /** A string of n spaces (strings.Repeat(" ", n)). */
  function Spaces(n: nat): (s: string)
    ensures |s| == n
    ensures forall k :: 0 <= k < |s| ==> s[k] == ' '
  {
    if n == 0 then "" else Spaces(n - 1) + " "
  }

  /** indent: the prefix of a line at the given depth. */
  function Indent(depth: nat): (s: string)
    ensures |s| == depth * IndentSpaces
    ensures forall k :: 0 <= k < |s| ==> s[k] == ' '
  {
    Spaces(depth * IndentSpaces)
  }

  /** The line of one node at a depth: indentation, URL, newline. */
  function Line(env: Env, node: Node, depth: nat): string
  {
    Indent(depth) + env.render(node.url) + "\n"
  }

  /**
   * string(depth): the node's own line, then the rendering of each child one
   * level deeper, in child order.
   */
  function Render(env: Env, nodes: seq<Node>, id: nat, depth: nat): string
    requires id < |nodes| && LinksForward(nodes)
    decreases |nodes| - id, 1
  {
    Line(env, nodes[id], depth) + RenderLinks(env, nodes, id, 0, depth + 1)
  }

  /** The range loop of string(depth): the children of `id` from the k-th on, concatenated. */
  function RenderLinks(env: Env, nodes: seq<Node>, id: nat, k: nat, depth: nat): string
    requires id < |nodes| && LinksForward(nodes) && k <= |nodes[id].linksTo|
    decreases |nodes| - id, 0, |nodes[id].linksTo| - k
  {
    if k == |nodes[id].linksTo| then ""
    else Render(env, nodes, nodes[id].linksTo[k], depth) + RenderLinks(env, nodes, id, k + 1, depth)
  }

  /**
   * string(depth) as the program runs it: the node's line, then each
   * child's rendering one level deeper, appended in a loop.
   */
  method StringAt(env: Env, nodes: seq<Node>, id: nat, depth: nat) returns (output: string)
    requires id < |nodes| && LinksForward(nodes)
    ensures output == Render(env, nodes, id, depth)
    decreases |nodes| - id
  {
    output := Line(env, nodes[id], depth);
    var links := nodes[id].linksTo;
    for k := 0 to |links|
      invariant output + RenderLinks(env, nodes, id, k, depth + 1) == Render(env, nodes, id, depth)
    {
      var s := StringAt(env, nodes, links[k], depth + 1);
      AppendAssoc(output, s, RenderLinks(env, nodes, id, k + 1, depth + 1));
      output := output + s;
    }
    assert output + "" == output;
  }

  /** String: the rendering starting at depth 0. */
  function NodeString(env: Env, nodes: seq<Node>, id: nat): string
    requires id < |nodes| && LinksForward(nodes)
  {
    Render(env, nodes, id, 0)
  }

  /** One line of an outline: which node, at which depth. */
  datatype Entry = Entry(id: nat, depth: nat)

  /**
   * The pre-order outline of a subtree: the node at `depth`, then the
   * outline of each child at `depth + 1`, in child order.
   */
  function Outline(nodes: seq<Node>, id: nat, depth: nat): (r: seq<Entry>)
    requires id < |nodes| && LinksForward(nodes)
    ensures forall e :: e in r ==> e.id < |nodes|
    decreases |nodes| - id, 1
  {
    [Entry(id, depth)] + OutlineLinks(nodes, id, 0, depth + 1)
  }

  function OutlineLinks(nodes: seq<Node>, id: nat, k: nat, depth: nat): (r: seq<Entry>)
    requires id < |nodes| && LinksForward(nodes) && k <= |nodes[id].linksTo|
    ensures forall e :: e in r ==> e.id < |nodes|
    decreases |nodes| - id, 0, |nodes[id].linksTo| - k
  {
    if k == |nodes[id].linksTo| then []
    else Outline(nodes, nodes[id].linksTo[k], depth) + OutlineLinks(nodes, id, k + 1, depth)
  }

  /** The text of an outline: one newline-terminated line per entry, in order. */
  function Text(env: Env, nodes: seq<Node>, entries: seq<Entry>): string
    requires forall e :: e in entries ==> e.id < |nodes|
  {
    if entries == [] then ""
    else Line(env, nodes[entries[0].id], entries[0].depth) + Text(env, nodes, entries[1..])
  }

  lemma {:induction false} TextAppend(env: Env, nodes: seq<Node>, a: seq<Entry>, b: seq<Entry>)
    requires forall e :: e in a ==> e.id < |nodes|
    requires forall e :: e in b ==> e.id < |nodes|
    ensures Text(env, nodes, a + b) == Text(env, nodes, a) + Text(env, nodes, b)
  {
    if a == [] {
      assert a + b == b;
    } else {
      assert (a + b)[0] == a[0];
      assert (a + b)[1..] == a[1..] + b;
      TextAppend(env, nodes, a[1..], b);
    }
  }

  /**
   * The rendering is the text of the pre-order outline: one line per node of
   * the subtree, the node itself first, each line indented by its depth.
   */
  lemma {:induction false} RenderIsOutline(env: Env, nodes: seq<Node>, id: nat, depth: nat)
    requires id < |nodes| && LinksForward(nodes)
    ensures Render(env, nodes, id, depth) == Text(env, nodes, Outline(nodes, id, depth))
    decreases |nodes| - id, 1
  {
    var rest := OutlineLinks(nodes, id, 0, depth + 1);
    RenderLinksIsOutline(env, nodes, id, 0, depth + 1);
    TextAppend(env, nodes, [Entry(id, depth)], rest);
    assert [Entry(id, depth)][1..] == [];
  }

  lemma {:induction false} RenderLinksIsOutline(env: Env, nodes: seq<Node>, id: nat, k: nat, depth: nat)
    requires id < |nodes| && LinksForward(nodes) && k <= |nodes[id].linksTo|
    ensures RenderLinks(env, nodes, id, k, depth) == Text(env, nodes, OutlineLinks(nodes, id, k, depth))
    decreases |nodes| - id, 0, |nodes[id].linksTo| - k
  {
    if k < |nodes[id].linksTo| {
      var c := nodes[id].linksTo[k];
      RenderIsOutline(env, nodes, c, depth);
      RenderLinksIsOutline(env, nodes, id, k + 1, depth);
      TextAppend(env, nodes, Outline(nodes, c, depth), OutlineLinks(nodes, id, k + 1, depth));
    }
  }

  /** A node without children renders as its indented URL and one newline. */
  lemma RenderLeaf(env: Env, nodes: seq<Node>, id: nat, depth: nat)
    requires id < |nodes| && LinksForward(nodes) && nodes[id].linksTo == []
    ensures Render(env, nodes, id, depth) == Spaces(depth * IndentSpaces) + env.render(nodes[id].url) + "\n"
  {
  }

  /**
   * String starts with the node's own URL, unindented, on the first line;
   * the lines of its descendants follow.
   */
  lemma NodeStringFirstLine(env: Env, nodes: seq<Node>, id: nat)
    requires id < |nodes| && LinksForward(nodes)
    ensures NodeString(env, nodes, id) == env.render(nodes[id].url) + "\n" + RenderLinks(env, nodes, id, 0, 1)
  {
    assert Indent(0) == "";
  }

  /**
   * The rendering of a root with children about and test, where about has
   * the child kevin: four lines, indented by 0, 2, 4 and 2 spaces.
   */
  lemma RenderFourNodes(env: Env, root: Url, about: Url, kevin: Url, test: Url)
    ensures var nodes := [Node(root, [1, 3]), Node(about, [2]), Node(kevin, []), Node(test, [])];
            LinksForward(nodes) &&
            NodeString(env, nodes, 0)
            == env.render(root) + "\n"
             + "  " + env.render(about) + "\n"
             + "    " + env.render(kevin) + "\n"
             + "  " + env.render(test) + "\n"
  {
    var nodes := [Node(root, [1, 3]), Node(about, [2]), Node(kevin, []), Node(test, [])];
    assert LinksForward(nodes);
    assert Indent(0) == "";
    assert Indent(1) == "  " by { assert Spaces(2) == Spaces(1) + " "; }
    assert Indent(2) == "    " by { assert Spaces(4) == Spaces(3) + " "; assert Spaces(3) == Spaces(2) + " "; assert Spaces(2) == Spaces(1) + " "; }
    var lk := Render(env, nodes, 2, 2);
    assert RenderLinks(env, nodes, 2, 0, 3) == "";
    assert lk == Line(env, nodes[2], 2);
    var la := Render(env, nodes, 1, 1);
    assert RenderLinks(env, nodes, 1, 1, 2) == "";
    assert RenderLinks(env, nodes, 1, 0, 2) == lk;
    assert la == Line(env, nodes[1], 1) + lk;
    var lt := Render(env, nodes, 3, 1);
    assert RenderLinks(env, nodes, 3, 0, 2) == "";
    assert lt == Line(env, nodes[3], 1);
    assert RenderLinks(env, nodes, 0, 2, 1) == "";
    assert RenderLinks(env, nodes, 0, 1, 1) == lt;
    assert RenderLinks(env, nodes, 0, 0, 1) == la + lt;
  }
}
