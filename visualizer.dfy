/**
 * The `TrieVisualizer` component without its rendering: the trie it owns, the
 * node and edge lists it displays, `insertAndBuild`, which inserts a word and
 * redraws the whole trie with `traverse`, and the decision logic of `searchWord`.
 */
module TrieVisualizer {
  import opened AssocList
  import opened TrieTree
  import opened TrieEngine
  import opened TrieLayout
  import opened GraphSearch

  /**
   * The state one build of `insertAndBuild` threads through `traverse`: the
   * arrays `newNodes` and `newEdges`, the counter `nodeId` and the shared
   * `xOffset.x`.
   */
  class LayoutBuilder {
    var nodes: seq<LayoutNode>
    var edges: seq<LayoutEdge>
    var nodeId: nat
    var x: int

    function State(): Acc
      reads this
    {
      Acc(nodes, edges, nodeId, x)
    }

    /** `newNodes = []`, `newEdges = []`, `nodeId = 0` and `xOffset = { x: 0 }`. */
    constructor ()
      ensures State() == Acc([], [], 0, 0)
    {
      nodes, edges, nodeId, x := [], [], 0, 0;
    }

    /**
     * `traverse(node, parentId, char, depth, xOffset)` on a node of a valid trie
     * whose abstract value is `t`: the new state is the one `Visit` describes,
     * and the trie is only read.
     */
    method Traverse(trie: Trie, node: TrieNode, parentId: Option<string>, text: string, depth: nat, ghost t: Tree)
      requires trie.Mirrored() && node in trie.nodes && t == trie.abs[node]
      modifies this
      ensures State() == Visit(t, parentId, text, depth, old(State()))
      decreases Size(t), 1
    {
      assert trie.Agrees(node);
      var curNodeId := Enter(node.isEnd, parentId, text, depth);
      TraverseChildren(trie, node, curNodeId, depth, t);
    }

    /**
     * The part of `traverse` before its loop: the node is named after the
     * counter, which moves on, and pushed at column `xOffset.x` and row `depth`,
     * with an edge from its parent when there is one.
     */
    method Enter(isEnd: bool, parentId: Option<string>, text: string, depth: nat) returns (curNodeId: string)
      modifies this
      ensures curNodeId == NodeName(old(nodeId))
      ensures State() == Acc(old(nodes) + [NodeRecord(old(nodeId), old(x), depth, text, isEnd)],
                             if parentId.Some? then old(edges) + [EdgeTo(parentId.value, curNodeId)] else old(edges),
                             old(nodeId) + 1, old(x))
    {
      curNodeId := NodeName(nodeId);
      nodeId := nodeId + 1;
      var position := Position(x * ColumnWidth, depth * RowHeight);
      nodes := nodes + [LayoutNode(curNodeId, position, NodeData(text, false, isEnd))];
      if parentId.Some? {
        edges := edges + [EdgeTo(parentId.value, curNodeId)];
      }
    }

    /**
     * The loop of `traverse` over `Object.entries(node.children)`: each child is
     * traversed one row down, then `xOffset.x` moves one column right.
     */
    method TraverseChildren(trie: Trie, node: TrieNode, curNodeId: string, depth: nat, ghost t: Tree)
      requires trie.Mirrored() && node in trie.nodes && t == trie.abs[node]
      modifies this
      ensures State() == VisitKids(t, |t.children|, curNodeId, depth, old(State()))
      decreases Size(t), 0, 1
    {
      var childEntries := node.children;
      assert trie.Agrees(node);
      for k := 0 to |childEntries|
        invariant State() == VisitKids(t, k, curNodeId, depth, old(State()))
      {
        TraverseChild(trie, node, k, curNodeId, depth, t, old(State()));
      }
    }

    /** One iteration of the loop of `traverse`: the `k`-th child, then one column right. */
    method TraverseChild(trie: Trie, node: TrieNode, k: nat, curNodeId: string, depth: nat, ghost t: Tree, ghost a: Acc)
      requires trie.Mirrored() && node in trie.nodes && t == trie.abs[node] && k < |node.children|
      requires State() == VisitKids(t, k, curNodeId, depth, a)
      modifies this
      ensures State() == VisitKids(t, k + 1, curNodeId, depth, a)
      decreases Size(t), 0, 0
    {
      assert trie.Agrees(node);
      var (childChar, childNode) := node.children[k];
      ghost var kid := trie.abs[childNode];
      assert t.children[k] == (childChar, kid);
      KidSmaller(t, k);
      Traverse(trie, childNode, Some(curNodeId), [childChar], depth + 1, kid);
      x := x + 1;
    }
  }

  /** The part of `insertAndBuild` after `trie.insert`: one fresh build from the root. */
  method BuildLayout(trie: Trie) returns (nodes: seq<LayoutNode>, edges: seq<LayoutEdge>)
    requires trie.Valid()
    ensures (nodes, edges) == Layout(trie.Contents())
  {
    var b := new LayoutBuilder();
    trie.ValidMirrored();
    b.Traverse(trie, trie.root, None, RootLabel, 0, trie.Contents());
    nodes, edges := b.nodes, b.edges;
  }

  class Visualizer {
    const trie: Trie
    var nodes: seq<LayoutNode>
    var edges: seq<LayoutEdge>

    /**
     * The displayed lists are those of one build of the current trie, or still
     * the initial empty lists of a trie nothing was inserted into.
     */
    ghost predicate Valid()
      reads this, trie, trie.nodes
    {
      trie.Valid() &&
      ((nodes, edges) == Layout(trie.Contents()) || (nodes == [] && edges == [] && trie.Contents() == Leaf))
    }

    /** The component's initial state: a fresh trie and nothing drawn. */
    constructor ()
      ensures Valid() && fresh(trie) && fresh(trie.nodes)
      ensures trie.Contents() == Leaf && trie.words == {} && nodes == [] && edges == []
    {
      trie := new Trie();
      nodes, edges := [], [];
    }

    /**
     * `insertAndBuild` with `word` in the input field: nothing happens for an
     * empty word; otherwise the word is inserted and the whole trie redrawn.
     */
    method InsertAndBuild(word: string)
      requires Valid()
      modifies this, trie, trie.nodes
      ensures Valid()
      ensures word == [] ==>
                nodes == old(nodes) && edges == old(edges) && trie.nodes == old(trie.nodes) &&
                trie.Contents() == old(trie.Contents()) && trie.words == old(trie.words)
      ensures word != [] ==>
                trie.Contents() == InsertTree(old(trie.Contents()), word) &&
                trie.words == old(trie.words) + {word} && (nodes, edges) == Layout(trie.Contents())
    {
      if word != [] {
        trie.Insert(word);
        Redraw();
      }
    }

    /** `setNodes(newNodes)` and `setEdges(newEdges)` after a fresh build of the unchanged trie. */
    method Redraw()
      requires trie.Valid()
      modifies this
      ensures Valid() && (nodes, edges) == Layout(trie.Contents())
    {
      nodes, edges := BuildLayout(trie);
    }

    /**
     * The outcome of `searchWord(query)` on the displayed lists: the same answer
     * walking the trie gives, so it is `Found` exactly for the inserted words.
     */
    method SearchWord(query: string) returns (outcome: Outcome)
      requires Valid()
      ensures outcome == Expected(trie.Contents(), query)
      ensures outcome == Found <==> query in trie.words
    {
      outcome := Search(nodes, edges, query, trie.Contents());
    }
  }
}
