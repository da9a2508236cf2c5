/**
 * The graph that `insertAndBuild` draws: its `traverse` closure walks the trie
 * depth first, in pre-order and in `Object.entries` order, and emits one node
 * record per trie node and one edge record per non-root node.
 *
 * `Visit` is the walk as a function of the state it threads (the arrays
 * `newNodes` and `newEdges`, the counter `nodeId` and the shared `xOffset.x`).
 * `Flat` is the pre-order list of the trie's nodes, each with its path and its
 * parent's position in the list.  `VisitLayout` gives the walk's output in closed
 * form over `Flat`, and the `Flat...` lemmas show that `Flat` lists every path of
 * the trie exactly once with its parent, so the drawn graph is a copy of the trie.
 */
module TrieLayout {
  import opened AssocList
  import opened TrieTree
  import opened Decimal

  /** Horizontal distance, in pixels, per unit of `xOffset.x`. */
  const ColumnWidth: int := 50
  /** Vertical distance, in pixels, per level of depth. */
  const RowHeight: int := 120
  /** The text of the root node, the default of `traverse`'s `char` parameter. */
  const RootLabel: string := "root"

  datatype Position = Position(x: int, y: int)
  datatype NodeData = NodeData(text: string, highlighted: bool, isEnd: bool)
  datatype LayoutNode = LayoutNode(id: string, position: Position, data: NodeData)
  datatype LayoutEdge = LayoutEdge(id: string, source: string, target: string)

  /** `node-${k}`. */
  function NodeName(k: nat): string {
    "node-" + NatToString(k)
  }

  /** Node names are distinct. */
  lemma NodeNameInjective(a: nat, b: nat)
    ensures NodeName(a) == NodeName(b) ==> a == b
  {
    if NodeName(a) == NodeName(b) {
      assert NatToString(a) == NodeName(a)[5..];
      NatToStringInjective(a, b);
    }
  }

  /** The edge record from `parent` to `child`, with id `${parent}-${child}`. */
  function EdgeTo(parent: string, child: string): LayoutEdge {
    LayoutEdge(parent + "-" + child, parent, child)
  }

  /** The position of a node in column `col` (`xOffset.x` when it was drawn) at depth `depth`. */
  function Pos(col: int, depth: nat): Position {
    Position(col * ColumnWidth, depth * RowHeight)
  }

  /** The record `traverse` pushes for node number `k`, drawn in column `col` at depth `depth`. */
  function NodeRecord(k: nat, col: int, depth: nat, text: string, isEnd: bool): LayoutNode {
    LayoutNode(NodeName(k), Pos(col, depth), NodeData(text, false, isEnd))
  }

  /** The state `traverse` updates: `newNodes`, `newEdges`, `nodeId` and `xOffset.x`. */
  datatype Acc = Acc(nodes: seq<LayoutNode>, edges: seq<LayoutEdge>, nodeId: nat, x: int)

  /**
   * `traverse(node, parentId, char, depth, xOffset)` on a node whose abstract value
   * is `t`, from state `a`: push the node's record and the edge from its parent,
   * then visit the children in order, incrementing `xOffset.x` after each.  The
   * walk names `Size(t)` nodes and advances `xOffset.x` once per non-root node.
   */
  function Visit(t: Tree, parentId: Option<string>, text: string, depth: nat, a: Acc): (r: Acc)
    ensures r.nodeId == a.nodeId + Size(t)
    ensures r.x == a.x + Size(t) - 1
    decreases t, 1
  {
    var id := NodeName(a.nodeId);
    var edges := if parentId.Some? then a.edges + [EdgeTo(parentId.value, id)] else a.edges;
    VisitKids(t, |t.children|, id, depth, Acc(a.nodes + [NodeRecord(a.nodeId, a.x, depth, text, t.isEnd)], edges, a.nodeId + 1, a.x))
  }

  /** The first `n` iterations of the loop of `traverse` over the children of `t`, whose node is named `id`. */
  function VisitKids(t: Tree, n: nat, id: string, depth: nat, a: Acc): (r: Acc)
    requires n <= |t.children|
    ensures r.nodeId == a.nodeId + KidsSize(t, n)
    ensures r.x == a.x + KidsSize(t, n)
    decreases t, 0, n
  {
    if n == 0 then a
    else
      var b := VisitKids(t, n - 1, id, depth, a);
      var c := Visit(t.children[n - 1].1, Some(id), [t.children[n - 1].0], depth + 1, b);
      c.(x := c.x + 1)
  }

  /** The node and edge lists of one build: `traverse(trie.root)` with a fresh counter and `xOffset = { x: 0 }`. */
  function Layout(t: Tree): (r: (seq<LayoutNode>, seq<LayoutEdge>))
    ensures |r.0| == Size(t) && |r.1| == Size(t) - 1
  {
    var v := Visit(t, None, RootLabel, 0, Acc([], [], 0, 0));
    VisitLayout(t, None, RootLabel, 0, Acc([], [], 0, 0));
    (v.nodes, v.edges)
  }

  // ---------------------------------------------------------------------------
  // The trie in pre-order

  /** A trie node in pre-order: its path from the root, its parent's position (0 for the root), its flag. */
  datatype Entry = Entry(path: seq<char>, parent: nat, isEnd: bool)

  /** The nodes of `t` in pre-order, children in list order. */
  function Flat(t: Tree): (es: seq<Entry>)
    ensures |es| == Size(t)
    decreases t, 1
  {
    [Entry([], 0, t.isEnd)] + FlatKids(t, |t.children|)
  }

  /** The pre-order lists of the first `n` children of `t`, placed after the entry of `t` itself. */
  function FlatKids(t: Tree, n: nat): (es: seq<Entry>)
    requires n <= |t.children|
    ensures |es| == KidsSize(t, n)
    decreases t, 0, n
  {
    if n == 0 then []
    else
      var pre := FlatKids(t, n - 1);
      pre + Shift(t.children[n - 1].0, 1 + |pre|, Flat(t.children[n - 1].1))
  }

  /** The list of a child with key `c`, placed at position `o` below its parent at position 0. */
  function Shift(c: char, o: nat, es: seq<Entry>): (r: seq<Entry>)
    ensures |r| == |es|
  {
    seq(|es|, j requires 0 <= j < |es| => Entry([c] + es[j].path, if j == 0 then 0 else es[j].parent + o, es[j].isEnd))
  }

  /** The text a drawn node carries: `root` for the walk's start, else the key of its incoming edge. */
  function LabelOf(path: seq<char>, rootLabel: string): string {
    if path == [] then rootLabel else [path[|path| - 1]]
  }

  /**
   * The node records for the entries `es`, the first of which is the `b`-th node
   * of a walk that starts with `nodeId == k0` and `xOffset.x == x0` at depth `depth`.
   */
  function NodesAt(es: seq<Entry>, k0: nat, b: nat, x0: int, depth: nat, text: string): (r: seq<LayoutNode>)
    ensures |r| == |es|
  {
    seq(|es|, j requires 0 <= j < |es| =>
      NodeRecord(k0 + b + j, x0 + b + j - |es[j].path|, depth + |es[j].path|, LabelOf(es[j].path, text), es[j].isEnd))
  }

  /** The edge records into the entries `es`, the first of which is the `b`-th node of a walk starting at `k0`. */
  function EdgesAt(es: seq<Entry>, k0: nat, b: nat): (r: seq<LayoutEdge>)
    ensures |r| == |es|
  {
    seq(|es|, j requires 0 <= j < |es| => EdgeTo(NodeName(k0 + es[j].parent), NodeName(k0 + b + j)))
  }

  lemma NodesAtAppend(es: seq<Entry>, fs: seq<Entry>, k0: nat, b: nat, x0: int, depth: nat, text: string)
    ensures NodesAt(es + fs, k0, b, x0, depth, text) ==
      NodesAt(es, k0, b, x0, depth, text) + NodesAt(fs, k0, b + |es|, x0, depth, text)
  {
    var l, r := NodesAt(es + fs, k0, b, x0, depth, text), NodesAt(es, k0, b, x0, depth, text) + NodesAt(fs, k0, b + |es|, x0, depth, text);
    forall j | 0 <= j < |l| ensures l[j] == r[j] {
      if j >= |es| {
        assert (es + fs)[j] == fs[j - |es|];
      }
    }
  }

  lemma EdgesAtAppend(es: seq<Entry>, fs: seq<Entry>, k0: nat, b: nat)
    ensures EdgesAt(es + fs, k0, b) == EdgesAt(es, k0, b) + EdgesAt(fs, k0, b + |es|)
  {
    var l, r := EdgesAt(es + fs, k0, b), EdgesAt(es, k0, b) + EdgesAt(fs, k0, b + |es|);
    forall j | 0 <= j < |l| ensures l[j] == r[j] {
      if j >= |es| {
        assert (es + fs)[j] == fs[j - |es|];
      }
    }
  }

  /** A child's records, placed under key `c`, are the records its own walk produces one level down. */
  lemma NodesAtShift(c: char, es: seq<Entry>, k0: nat, b: nat, x0: int, depth: nat, text: string)
    requires b > 0
    ensures NodesAt(Shift(c, b, es), k0, b, x0, depth, text) == NodesAt(es, k0 + b, 0, x0 + b - 1, depth + 1, [c])
  {
    var l, r := NodesAt(Shift(c, b, es), k0, b, x0, depth, text), NodesAt(es, k0 + b, 0, x0 + b - 1, depth + 1, [c]);
    forall j | 0 <= j < |l| ensures l[j] == r[j] {
      var p := es[j].path;
      assert ([c] + p)[|[c] + p| - 1] == if p == [] then c else p[|p| - 1];
    }
  }

  /** A child's edges, placed at position `o`: the edge from the parent, then the child's own edges. */
  lemma EdgesAtShift(c: char, es: seq<Entry>, k0: nat, o: nat)
    requires |es| > 0
    ensures EdgesAt(Shift(c, o, es), k0, o) == [EdgeTo(NodeName(k0), NodeName(k0 + o))] + EdgesAt(es[1..], k0 + o, 1)
  {
  }

  // ---------------------------------------------------------------------------
  // What the walk produces

  /**
   * The output of `traverse` in closed form: the records of the subtree, in
   * pre-order, are appended; the `j`-th is named `node-${nodeId + j}`, sits at
   * `x = 50 * (xOffset.x + j - its depth below the start)` and `y = 120 * its
   * depth`; one edge joins each node to its parent, and the start node to
   * `parentId` when there is one.
   */
  lemma {:induction false} VisitLayout(t: Tree, parentId: Option<string>, text: string, depth: nat, a: Acc)
    ensures var r := Visit(t, parentId, text, depth, a);
      r.nodes == a.nodes + NodesAt(Flat(t), a.nodeId, 0, a.x, depth, text) &&
      r.edges == a.edges + (if parentId.Some? then [EdgeTo(parentId.value, NodeName(a.nodeId))] else []) +
                 EdgesAt(Flat(t)[1..], a.nodeId, 1)
    decreases t, 1
  {
    var id := NodeName(a.nodeId);
    var up := if parentId.Some? then [EdgeTo(parentId.value, id)] else [];
    var edges := if parentId.Some? then a.edges + [EdgeTo(parentId.value, id)] else a.edges;
    assert edges == a.edges + up;
    var a1 := Acc(a.nodes + [NodeRecord(a.nodeId, a.x, depth, text, t.isEnd)], edges, a.nodeId + 1, a.x);
    var kids := FlatKids(t, |t.children|);
    VisitKidsLayout(t, |t.children|, a.nodeId, depth, text, a1);
    var r := VisitKids(t, |t.children|, id, depth, a1);
    assert Flat(t) == [Entry([], 0, t.isEnd)] + kids;
    RootStep(a.nodes, r.nodes, a.edges, up, r.edges, kids, Entry([], 0, t.isEnd), a.nodeId, a.x, depth, text);
  }

  /** The start node's record and the edge from its parent come first, then those of its children's walks. */
  lemma RootStep(an: seq<LayoutNode>, rn: seq<LayoutNode>, ae: seq<LayoutEdge>, up: seq<LayoutEdge>, re: seq<LayoutEdge>,
                 kids: seq<Entry>, e0: Entry, k0: nat, x: int, depth: nat, text: string)
    requires e0.path == []
    requires rn == an + [NodeRecord(k0, x, depth, text, e0.isEnd)] + NodesAt(kids, k0, 1, x, depth, text)
    requires re == ae + up + EdgesAt(kids, k0, 1)
    ensures rn == an + NodesAt([e0] + kids, k0, 0, x, depth, text)
    ensures re == ae + up + EdgesAt(([e0] + kids)[1..], k0, 1)
  {
    NodesAtAppend([e0], kids, k0, 0, x, depth, text);
    assert NodesAt([e0], k0, 0, x, depth, text) == [NodeRecord(k0, x, depth, text, e0.isEnd)];
    assert ([e0] + kids)[1..] == kids;
  }

  /** The loop of `traverse` after `n` children, in closed form over `FlatKids(t, n)`. */
  lemma {:induction false} VisitKidsLayout(t: Tree, n: nat, k0: nat, depth: nat, text: string, a: Acc)
    requires n <= |t.children| && a.nodeId == k0 + 1
    ensures var r := VisitKids(t, n, NodeName(k0), depth, a);
      r.nodes == a.nodes + NodesAt(FlatKids(t, n), k0, 1, a.x, depth, text) &&
      r.edges == a.edges + EdgesAt(FlatKids(t, n), k0, 1)
    decreases t, 0, n
  {
    if n > 0 {
      var pre := FlatKids(t, n - 1);
      var (ch, kid) := t.children[n - 1];
      var b := VisitKids(t, n - 1, NodeName(k0), depth, a);
      VisitKidsLayout(t, n - 1, k0, depth, text, a);
      VisitLayout(kid, Some(NodeName(k0)), [ch], depth + 1, b);
      var c := Visit(kid, Some(NodeName(k0)), [ch], depth + 1, b);
      NodesStep(a.nodes, b.nodes, c.nodes, pre, Flat(kid), ch, k0, b.nodeId, a.x, b.x, depth, text);
      EdgesStep(a.edges, b.edges, c.edges, pre, Flat(kid), ch, k0, b.nodeId);
    }
  }

  /** One iteration of the loop, for the node records: the child's records follow those of its elder siblings. */
  lemma NodesStep(an: seq<LayoutNode>, bn: seq<LayoutNode>, cn: seq<LayoutNode>, pre: seq<Entry>, fk: seq<Entry>,
                  ch: char, k0: nat, id: nat, x: int, bx: int, depth: nat, text: string)
    requires id == k0 + 1 + |pre| && bx == x + |pre|
    requires bn == an + NodesAt(pre, k0, 1, x, depth, text)
    requires cn == bn + NodesAt(fk, id, 0, bx, depth + 1, [ch])
    ensures cn == an + NodesAt(pre + Shift(ch, 1 + |pre|, fk), k0, 1, x, depth, text)
  {
    var sh := Shift(ch, 1 + |pre|, fk);
    NodesAtAppend(pre, sh, k0, 1, x, depth, text);
    NodesAtShift(ch, fk, k0, 1 + |pre|, x, depth, text);
    ConcatAssoc(an, NodesAt(pre, k0, 1, x, depth, text), NodesAt(sh, k0, 1 + |pre|, x, depth, text));
  }

  /** One iteration of the loop, for the edges: the edge into the child, then the child's own edges. */
  lemma EdgesStep(ae: seq<LayoutEdge>, be: seq<LayoutEdge>, ce: seq<LayoutEdge>, pre: seq<Entry>, fk: seq<Entry>,
                  ch: char, k0: nat, id: nat)
    requires id == k0 + 1 + |pre| && |fk| > 0
    requires be == ae + EdgesAt(pre, k0, 1)
    requires ce == be + [EdgeTo(NodeName(k0), NodeName(id))] + EdgesAt(fk[1..], id, 1)
    ensures ce == ae + EdgesAt(pre + Shift(ch, 1 + |pre|, fk), k0, 1)
  {
    var sh := Shift(ch, 1 + |pre|, fk);
    var pe, se := EdgesAt(pre, k0, 1), EdgesAt(sh, k0, 1 + |pre|);
    EdgesAtShift(ch, fk, k0, 1 + |pre|);
    ConcatAssoc(be, [EdgeTo(NodeName(k0), NodeName(id))], EdgesAt(fk[1..], id, 1));
    EdgesAtAppend(pre, sh, k0, 1);
    ConcatAssoc(ae, pe, se);
  }

  lemma ConcatAssoc<T>(a: seq<T>, b: seq<T>, c: seq<T>)
    ensures a + b + c == a + (b + c)
  {
  }

  /** One build lists the node records and the edges of `Flat(t)`, starting from node 0 in column 0 at depth 0. */
  lemma LayoutAsFlat(t: Tree)
    ensures Layout(t).0 == NodesAt(Flat(t), 0, 0, 0, 0, RootLabel)
    ensures Layout(t).1 == EdgesAt(Flat(t)[1..], 0, 1)
  {
    VisitLayout(t, None, RootLabel, 0, Acc([], [], 0, 0));
  }

  /**
   * One build, in closed form: node `k` of the list is the `k`-th trie node in
   * pre-order, named `node-k`, at `x = 50 * (k - depth)` and `y = 120 * depth`,
   * labelled `root` or with the key of its incoming edge, with the trie node's
   * flag and not highlighted; edge `j` joins the parent of node `j + 1` to node
   * `j + 1`, so the root alone has no edge.
   */
  lemma LayoutClosedForm(t: Tree)
    ensures |Layout(t).0| == Size(t) && |Layout(t).1| == Size(t) - 1
    ensures forall k :: 0 <= k < |Layout(t).0| ==>
      var e := Flat(t)[k]; Layout(t).0[k] == NodeRecord(k, k - |e.path|, |e.path|, LabelOf(e.path, RootLabel), e.isEnd)
    ensures forall j :: 0 <= j < |Layout(t).1| ==>
      Layout(t).1[j] == EdgeTo(NodeName(Flat(t)[j + 1].parent), NodeName(j + 1))
  {
    LayoutAsFlat(t);
    NodesAtOrigin(Flat(t), RootLabel);
    EdgesAtTail(Flat(t));
  }

  lemma NodesAtOrigin(es: seq<Entry>, text: string)
    ensures forall k :: 0 <= k < |es| ==>
      NodesAt(es, 0, 0, 0, 0, text)[k] == NodeRecord(k, k - |es[k].path|, |es[k].path|, LabelOf(es[k].path, text), es[k].isEnd)
  {
  }

  lemma EdgesAtTail(es: seq<Entry>)
    requires |es| > 0
    ensures forall j :: 0 <= j < |es| - 1 ==> EdgesAt(es[1..], 0, 1)[j] == EdgeTo(NodeName(es[j + 1].parent), NodeName(j + 1))
  {
  }

  /** After one build, `nodeId` has named every trie node and `xOffset.x` counts the non-root nodes. */
  lemma LayoutCounters(t: Tree)
    ensures var r := Visit(t, None, RootLabel, 0, Acc([], [], 0, 0));
      r.nodeId == Size(t) && r.x == Size(t) - 1
  {
  }

  // ---------------------------------------------------------------------------
  // `Flat` is the trie

  /** Position `j` of `FlatKids(t, n)` lies in the block of one child `i`, which starts at `KidsSize(t, i)`. */
  lemma {:induction false} FlatKidsBlock(t: Tree, n: nat, j: nat) returns (i: nat)
    requires n <= |t.children| && j < KidsSize(t, n)
    ensures i < n && KidsSize(t, i) <= j < KidsSize(t, i) + Size(t.children[i].1)
    decreases n
  {
    if j < KidsSize(t, n - 1) {
      i := FlatKidsBlock(t, n - 1, j);
    } else {
      i := n - 1;
    }
  }

  /** The block of child `i` in `FlatKids(t, n)` is that child's own list, placed under its key. */
  lemma {:induction false} FlatKidsAt(t: Tree, n: nat, i: nat, j: nat)
    requires n <= |t.children| && i < n && KidsSize(t, i) <= j < KidsSize(t, i) + Size(t.children[i].1)
    ensures KidsSize(t, i) + Size(t.children[i].1) <= KidsSize(t, n)
    ensures Placed(t.children[i].0, KidsSize(t, i), FlatKids(t, n)[j], Flat(t.children[i].1)[j - KidsSize(t, i)], j - KidsSize(t, i))
    decreases n
  {
    var pre := FlatKids(t, n - 1);
    var last := Shift(t.children[n - 1].0, 1 + |pre|, Flat(t.children[n - 1].1));
    assert FlatKids(t, n) == pre + last;
    if i < n - 1 {
      KidsSizeMono(t, i + 1, n - 1);
      FlatKidsAt(t, n - 1, i, j);
      assert (pre + last)[j] == pre[j];
    } else {
      assert (pre + last)[j] == last[j - |pre|];
    }
  }

  /** `e` is `k`, entry `j` of a child's list, placed under key `c` in a block that starts after position `o`. */
  predicate Placed(c: char, o: nat, e: Entry, k: Entry, j: nat) {
    e.path == [c] + k.path && e.isEnd == k.isEnd && e.parent == (if j == 0 then 0 else k.parent + 1 + o)
  }

  lemma {:induction false} KidsSizeMono(t: Tree, i: nat, n: nat)
    requires i <= n <= |t.children|
    ensures KidsSize(t, i) <= KidsSize(t, n)
    decreases n
  {
    if i < n {
      KidsSizeMono(t, i, n - 1);
    }
  }

  /** Every entry after the first comes from the list of one child `i`. */
  lemma FlatChild(t: Tree, j: nat) returns (i: nat)
    requires 0 < j < Size(t)
    ensures i < |t.children| && KidsSize(t, i) < j <= KidsSize(t, i) + Size(t.children[i].1)
    ensures var j' := j - 1 - KidsSize(t, i); Placed(t.children[i].0, KidsSize(t, i), Flat(t)[j], Flat(t.children[i].1)[j'], j')
  {
    i := FlatKidsBlock(t, |t.children|, j - 1);
    FlatChildAt(t, i, j - 1 - KidsSize(t, i));
  }

  /** Entry `j` of child `i`'s list sits at position `1 + KidsSize(t, i) + j` of the list of `t`. */
  lemma FlatChildAt(t: Tree, i: nat, j: nat)
    requires i < |t.children| && j < Size(t.children[i].1)
    ensures 1 + KidsSize(t, i) + j < Size(t)
    ensures Placed(t.children[i].0, KidsSize(t, i), Flat(t)[1 + KidsSize(t, i) + j], Flat(t.children[i].1)[j], j)
  {
    var o := KidsSize(t, i);
    FlatKidsAt(t, |t.children|, i, o + j);
    var e := FlatKids(t, |t.children|)[o + j];
    FlatIndex(t, 1 + o + j);
    assert Flat(t)[1 + o + j] == e;
  }

  /** After the root, `Flat(t)` continues with `FlatKids(t, |t.children|)`. */
  lemma FlatIndex(t: Tree, j: nat)
    requires 0 < j < Size(t)
    ensures Flat(t)[j] == FlatKids(t, |t.children|)[j - 1]
  {
    assert Flat(t) == [Entry([], 0, t.isEnd)] + FlatKids(t, |t.children|);
  }

  /** The root comes first; every other entry has a non-empty path and an earlier parent one key shorter. */
  lemma {:induction false} FlatParents(t: Tree, j: nat)
    requires j < Size(t)
    ensures Flat(t)[0].path == []
    ensures 0 < j ==> var e := Flat(t)[j];
      e.path != [] && e.parent < j && Flat(t)[e.parent].path + [e.path[|e.path| - 1]] == e.path
    decreases t
  {
    if 0 < j {
      var i := FlatChild(t, j);
      var (c, kid) := t.children[i];
      var o := KidsSize(t, i);
      var ks := Flat(kid);
      var j' := j - 1 - o;
      var e := Flat(t)[j];
      assert e.path == [c] + ks[j'].path;
      if j' == 0 {
        FlatParents(kid, 0);
        assert e.parent == 0 && e.path == [c];
      } else {
        FlatParents(kid, j');
        var p := ks[j'].parent;
        FlatChildAt(t, i, p);
        assert e.parent == 1 + o + p;
        var q := ks[j'].path;
        assert e.path[|e.path| - 1] == q[|q| - 1];
        assert [c] + ks[p].path + [q[|q| - 1]] == [c] + (ks[p].path + [q[|q| - 1]]);
      }
    }
  }

  /** Following the key of child `i` from `t` leads to that child. */
  lemma SubtreeChild(t: Tree, i: nat, q: seq<char>)
    requires WF(t) && i < |t.children|
    ensures Subtree(t, [t.children[i].0] + q) == Subtree(t.children[i].1, q)
  {
    IndexOfIs(t.children, t.children[i].0, i);
    assert ([t.children[i].0] + q)[1..] == q;
  }

  /** Every entry is a path of `t` leading to a node with the entry's flag. */
  lemma {:induction false} FlatPaths(t: Tree, j: nat)
    requires WF(t) && j < Size(t)
    ensures var e := Flat(t)[j]; Subtree(t, e.path).Some? && Subtree(t, e.path).value.isEnd == e.isEnd
    decreases t
  {
    if 0 < j {
      var i := FlatChild(t, j);
      var j' := j - 1 - KidsSize(t, i);
      FlatPaths(t.children[i].1, j');
      SubtreeChild(t, i, Flat(t.children[i].1)[j'].path);
    }
  }

  /** Every path of `t` is listed. */
  lemma {:induction false} FlatComplete(t: Tree, q: seq<char>) returns (j: nat)
    requires WF(t) && HasPath(t, q)
    ensures j < Size(t) && Flat(t)[j].path == q
    decreases t
  {
    if q == [] {
      j := 0;
    } else {
      var i := IndexOf(t.children, q[0]).value;
      assert [q[0]] + q[1..] == q;
      SubtreeChild(t, i, q[1..]);
      var j' := FlatComplete(t.children[i].1, q[1..]);
      FlatChildAt(t, i, j');
      j := 1 + KidsSize(t, i) + j';
    }
  }

  /** No path is listed twice. */
  lemma {:induction false} FlatDistinct(t: Tree, j: nat, k: nat)
    requires WF(t) && j < Size(t) && k < Size(t) && Flat(t)[j].path == Flat(t)[k].path
    ensures j == k
    decreases t
  {
    if j > 0 && k > 0 {
      var i := FlatChild(t, j);
      var i' := FlatChild(t, k);
      var ks, ks' := Flat(t.children[i].1), Flat(t.children[i'].1);
      var a, b := j - 1 - KidsSize(t, i), k - 1 - KidsSize(t, i');
      assert Flat(t)[j].path[0] == t.children[i].0;
      assert Flat(t)[k].path[0] == t.children[i'].0;
      assert i == i';
      assert [t.children[i].0] + ks[a].path == [t.children[i].0] + ks[b].path;
      assert ks[a].path == ([t.children[i].0] + ks[a].path)[1..];
      assert ks[b].path == ([t.children[i].0] + ks[b].path)[1..];
      FlatDistinct(t.children[i].1, a, b);
    } else if j > 0 {
      FlatParents(t, j);
    } else if k > 0 {
      FlatParents(t, k);
    }
  }
}
