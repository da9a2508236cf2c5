/**
 * Searching the drawn graph: `findChildWithChar` scans the edge list for an
 * edge out of the current node whose target carries the wanted character, and
 * `searchWord` follows such edges from the node labelled `root`.
 *
 * On the lists one build produces, a node id `node-k` stands for entry `k` of
 * `Flat(t)`; `FindChildInLayout` shows that the scan finds the child that the
 * trie has under that character, so the search agrees with walking the trie.
 */
module GraphSearch {
  import opened AssocList
  import opened TrieTree
  import opened TrieLayout

  /** The three answers of `searchWord`. */
  datatype Outcome = Found | PrefixOnly | NotFound

  /** What walking the trie itself says about `q`. */
  function Expected(t: Tree, q: seq<char>): (o: Outcome)
    ensures o == Found <==> IsWord(t, q)
    ensures o == NotFound <==> !HasPath(t, q)
  {
    if !HasPath(t, q) then NotFound else if IsWord(t, q) then Found else PrefixOnly
  }

  /** The three predicates the component passes to `nodes.find`. */
  datatype Query =
    | LabelIs(text: string)                  // `node.data.label === "root"`
    | IdIs(cur: Option<string>)              // `node.id === curNodeId`, where `curNodeId` may be undefined
    | IdAndLabelIs(id: string, text: string) // `node.id === childNodeId && node.data.label === char`

  predicate Matches(n: LayoutNode, q: Query) {
    match q
    case LabelIs(s) => n.data.text == s
    case IdIs(id) => Some(n.id) == id
    case IdAndLabelIs(id, s) => n.id == id && n.data.text == s
  }

  /** `nodes.find(q)`: the position of the first node that matches, if any. */
  function Find(nodes: seq<LayoutNode>, q: Query): (r: Option<nat>)
    ensures r.None? <==> forall k :: 0 <= k < |nodes| ==> !Matches(nodes[k], q)
    ensures r.Some? ==> r.value < |nodes| && Matches(nodes[r.value], q)
    ensures r.Some? ==> forall k :: 0 <= k < r.value ==> !Matches(nodes[k], q)
    decreases |nodes|
  {
    if nodes == [] then None
    else if Matches(nodes[0], q) then Some(0)
    else match Find(nodes[1..], q)
      case None => None
      case Some(k) => Some(k + 1)
  }

  /** `e` leaves `cur` and its target is a node labelled with `c`. */
  predicate Hit(nodes: seq<LayoutNode>, e: LayoutEdge, cur: Option<string>, c: char) {
    Some(e.source) == cur && exists k :: 0 <= k < |nodes| && Matches(nodes[k], IdAndLabelIs(e.target, [c]))
  }

  /**
   * `findChildWithChar(curNodeId, char)`: the target of the first edge out of
   * `cur` whose target node is labelled `c`, or nothing (`false`) when there is
   * no such edge.
   */
  function FindChildWithChar(nodes: seq<LayoutNode>, edges: seq<LayoutEdge>, cur: Option<string>, c: char): (r: Option<string>)
    ensures r.None? <==> forall j :: 0 <= j < |edges| ==> !Hit(nodes, edges[j], cur, c)
    ensures r.Some? ==> exists j :: 0 <= j < |edges| && Hit(nodes, edges[j], cur, c) && r.value == edges[j].target &&
                                 forall j' :: 0 <= j' < j ==> !Hit(nodes, edges[j'], cur, c)
    decreases |edges|
  {
    if edges == [] then None
    else
      var e := edges[0];
      var found := if Some(e.source) == cur then Find(nodes, IdAndLabelIs(e.target, [c])) else None;
      if found.Some? then Some(nodes[found.value].id)
      else
        var r := FindChildWithChar(nodes, edges[1..], cur, c);
        assert forall j :: 0 < j < |edges| ==> edges[1..][j - 1] == edges[j];
        r
  }

  // ---------------------------------------------------------------------------
  // Searching a freshly built layout

  /** The node and edge records of one build, one by one, and the trie entry each stands for. */
  lemma LayoutRecords(t: Tree, k: nat)
    requires k < Size(t)
    ensures var (nodes, edges) := Layout(t); var e := Flat(t)[k];
      |nodes| == Size(t) && |edges| == Size(t) - 1 &&
      nodes[k].id == NodeName(k) && nodes[k].data.text == LabelOf(e.path, RootLabel) && nodes[k].data.isEnd == e.isEnd &&
      (0 < k ==> edges[k - 1] == EdgeTo(NodeName(e.parent), NodeName(k)))
  {
    LayoutClosedForm(t);
  }

  /** `node-k` names only node `k`. */
  lemma LayoutIdUnique(t: Tree, k: nat, k': nat)
    requires k < Size(t) && k' < Size(t) && Layout(t).0[k'].id == NodeName(k)
    ensures k' == k
  {
    LayoutRecords(t, k');
    NodeNameInjective(k', k);
  }

  /** The build labels the root `root`; it is the first node, so `searchWord` starts there. */
  lemma LayoutRoot(t: Tree)
    ensures Find(Layout(t).0, LabelIs(RootLabel)) == Some(0)
    ensures Layout(t).0[0].id == NodeName(0)
  {
    LayoutRecords(t, 0);
    FlatParents(t, 0);
  }

  /** Looking up `node-k` by id finds node `k`, which carries the flag of the trie node at its path. */
  lemma LayoutFindById(t: Tree, k: nat)
    requires WF(t) && k < Size(t)
    ensures Find(Layout(t).0, IdIs(Some(NodeName(k)))) == Some(k)
    ensures HasPath(t, Flat(t)[k].path) && Layout(t).0[k].data.isEnd == IsWord(t, Flat(t)[k].path)
  {
    LayoutRecords(t, k);
    FlatPaths(t, k);
    var r := Find(Layout(t).0, IdIs(Some(NodeName(k))));
    assert Matches(Layout(t).0[k], IdIs(Some(NodeName(k))));
    LayoutIdUnique(t, k, r.value);
  }

  /**
   * An edge of the build leaves node `k` towards a node labelled `c` exactly when
   * it is the edge into the node whose path is that of `k` followed by `c`.
   */
  lemma LayoutHit(t: Tree, k: nat, c: char, j: nat)
    requires WF(t) && k < Size(t) && j < Size(t) - 1
    ensures var (nodes, edges) := Layout(t);
      Hit(nodes, edges[j], Some(NodeName(k)), c) <==> Flat(t)[j + 1].path == Flat(t)[k].path + [c]
  {
    var (nodes, edges) := Layout(t);
    var es := Flat(t);
    var e := es[j + 1];
    LayoutRecords(t, j + 1);
    FlatParents(t, j + 1);
    var last := e.path[|e.path| - 1];
    assert nodes[j + 1].data.text == [last];
    if Hit(nodes, edges[j], Some(NodeName(k)), c) {
      NodeNameInjective(e.parent, k);
      var k' :| 0 <= k' < |nodes| && Matches(nodes[k'], IdAndLabelIs(edges[j].target, [c]));
      LayoutIdUnique(t, j + 1, k');
    }
    if e.path == es[k].path + [c] {
      assert es[e.parent].path == es[k].path by {
        assert es[e.parent].path + [last] == es[k].path + [c];
        assert es[e.parent].path == (es[e.parent].path + [last])[..|e.path| - 1];
        assert es[k].path == (es[k].path + [c])[..|e.path| - 1];
      }
      FlatDistinct(t, e.parent, k);
      assert Matches(nodes[j + 1], IdAndLabelIs(edges[j].target, [c]));
    }
  }

  /**
   * On a freshly built layout, `findChildWithChar` from `node-k` with `c` finds a
   * node exactly when the trie has the path of `k` followed by `c`, and then it
   * finds the node that stands for that path.
   */
  lemma FindChildInLayout(t: Tree, k: nat, c: char) returns (k': nat)
    requires WF(t) && k < Size(t)
    ensures var r := FindChildWithChar(Layout(t).0, Layout(t).1, Some(NodeName(k)), c);
      (r.Some? <==> HasPath(t, Flat(t)[k].path + [c])) &&
      (r.Some? ==> k' < Size(t) && r.value == NodeName(k') && Flat(t)[k'].path == Flat(t)[k].path + [c])
  {
    var (nodes, edges) := Layout(t);
    var es := Flat(t);
    var q := es[k].path + [c];
    LayoutRecords(t, 0);
    var r := FindChildWithChar(nodes, edges, Some(NodeName(k)), c);
    if r.Some? {
      var j :| 0 <= j < |edges| && Hit(nodes, edges[j], Some(NodeName(k)), c) && r.value == edges[j].target;
      LayoutHit(t, k, c, j);
      LayoutRecords(t, j + 1);
      FlatPaths(t, j + 1);
      k' := j + 1;
    } else {
      k' := 0;
      if HasPath(t, q) {
        var i := FlatComplete(t, q);
        FlatParents(t, i);
        assert i != 0;
        LayoutHit(t, k, c, i - 1);
        assert false;
      }
    }
  }

  /**
   * One iteration of the loop of `searchWord` on a freshly built layout, at
   * `node-k` after the first `i` characters of `q`: no child for `q[i]` means
   * the trie lacks the path `q`; otherwise the child found stands for the first
   * `i + 1` characters.
   */
  lemma SearchStep(t: Tree, k: nat, q: seq<char>, i: nat) returns (k': nat)
    requires WF(t) && k < Size(t) && i < |q| && Flat(t)[k].path == q[..i]
    ensures var r := FindChildWithChar(Layout(t).0, Layout(t).1, Some(NodeName(k)), q[i]);
      (r.None? ==> !HasPath(t, q)) &&
      (r.Some? ==> k' < Size(t) && r.value == NodeName(k') && Flat(t)[k'].path == q[..i + 1])
  {
    k' := FindChildInLayout(t, k, q[i]);
    PrefixSnoc(q, i);
    if HasPath(t, q) {
      PrefixHasPath(t, q[..i + 1], q);
    }
  }

  /**
   * The decision logic of `searchWord(query)` over the displayed lists, which
   * are either one build of `t` or, before anything was inserted, empty: start
   * at the node labelled `root`, follow `findChildWithChar` for each character
   * and look at the flag of the node reached.  The outcome is what walking the
   * trie itself says.
   */
  method Search(nodes: seq<LayoutNode>, edges: seq<LayoutEdge>, query: string, ghost t: Tree) returns (outcome: Outcome)
    requires WF(t)
    requires (nodes, edges) == Layout(t) || (nodes == [] && edges == [] && t == Leaf)
    ensures outcome == Expected(t, query)
  {
    ghost var drawn := (nodes, edges) == Layout(t);
    ghost var k: nat := 0;
    if drawn {
      LayoutRoot(t);
    } else {
      LeafPaths(query);
    }
    var found := Find(nodes, LabelIs(RootLabel));
    var curNodeId := if found.Some? then Some(nodes[found.value].id) else None;
    for i := 0 to |query|
      invariant drawn ==> k < Size(t) && curNodeId == Some(NodeName(k)) && Flat(t)[k].path == query[..i]
      invariant !drawn ==> nodes == [] && edges == [] && t == Leaf && curNodeId == None && i == 0
    {
      var nextNodeId := FindChildWithChar(nodes, edges, curNodeId, query[i]);
      ghost var k': nat := 0;
      if drawn {
        k' := SearchStep(t, k, query, i);
      }
      if nextNodeId.None? {
        return NotFound;
      }
      k := k';
      curNodeId := nextNodeId;
    }
    var lastNode := Find(nodes, IdIs(curNodeId));
    if drawn {
      assert query[..|query|] == query;
      LayoutFindById(t, k);
    }
    if lastNode.Some? && nodes[lastNode.value].data.isEnd {
      outcome := Found;
    } else {
      outcome := PrefixOnly;
    }
  }
}
