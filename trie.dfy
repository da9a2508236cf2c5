/**
 * The trie engine: `TrieNode` objects linked through their `children`
 * dictionaries, and `Trie.insert`, which walks a word from the root creating
 * each missing child and marks the last node.
 *
 * `Trie` keeps, as ghost state, the set of its nodes and the abstract `Tree` of
 * every node.  `Valid()` says that these abstract trees are exactly what the
 * nodes' fields describe and that the nodes reachable from the root form a
 * tree (no child is shared and the root is nobody's child), so `Contents()` is
 * the abstract value of the trie.  `nodes` may also hold detached nodes, which
 * no operation reaches.
 */
module TrieEngine {
  import opened AssocList
  import opened TrieTree

  class TrieNode {
    var children: seq<(char, TrieNode)>
    var isEnd: bool

    /** A new node has no children and does not end a word. */
    constructor ()
      ensures children == [] && !isEnd
    {
      children := [];
      isEnd := false;
    }

    /** `children[ch] !== undefined`. */
    function Contains(ch: char): (b: bool)
      reads this
      ensures b <==> exists i :: 0 <= i < |children| && children[i].0 == ch
    {
      Lookup(children, ch).Some?
    }

    /** `children[ch]`, with `None` for `undefined`. */
    function GetNextNode(ch: char): (r: Option<TrieNode>)
      reads this
      ensures r.Some? <==> Contains(ch)
      ensures r.Some? ==> exists i :: 0 <= i < |children| && children[i] == (ch, r.value)
    {
      Lookup(children, ch)
    }

    /** `children[ch] = newNode`: binds `ch` and leaves every other key as it was. */
    method PutNewNode(ch: char, newNode: TrieNode)
      modifies this
      ensures children == Put(old(children), ch, newNode) && isEnd == old(isEnd)
      ensures GetNextNode(ch) == Some(newNode)
      ensures forall k :: k != ch ==> Lookup(children, k) == Lookup(old(children), k)
    {
      forall k {
        PutLookup(children, ch, newNode, k);
      }
      children := Put(children, ch, newNode);
    }

    method SetIsEnd()
      modifies this
      ensures isEnd && children == old(children)
    {
      isEnd := true;
    }
  }

  /** The fields of one node, as a value. */
  datatype Cell = Cell(children: seq<(char, TrieNode)>, isEnd: bool)

  /** The fields of a set of nodes, as a value. */
  type Store = map<TrieNode, Cell>

  ghost function Snapshot(ns: set<TrieNode>): (s: Store)
    reads ns
    ensures Mirrors(s, ns)
  {
    map n | n in ns :: Cell(n.children, n.isEnd)
  }

  ghost predicate Mirrors(s: Store, ns: set<TrieNode>)
    reads ns
  {
    s.Keys == ns && forall n {:trigger s[n]} :: n in ns ==> s[n] == Cell(n.children, n.isEnd)
  }

  lemma MirrorsSnapshot(s: Store, ns: set<TrieNode>)
    requires Mirrors(s, ns)
    ensures s == Snapshot(ns)
  {
  }

  /** The record after `putNewNode` gave `node` the new child `f`. */
  lemma MirrorsAdd(s: Store, ns: set<TrieNode>, node: TrieNode, ch: char, f: TrieNode)
    requires s.Keys == ns && node in ns && f !in ns
    requires forall n :: n in ns && n != node ==> s[n] == Cell(n.children, n.isEnd)
    requires Lookup(s[node].children, ch).None?
    requires node.children == Put(s[node].children, ch, f) && node.isEnd == s[node].isEnd
    requires f.children == [] && !f.isEnd
    ensures Mirrors(AddChild(s, node, ch, f), ns + {f})
  {
  }

  /** The record after `setIsEnd` marked `node`. */
  lemma MirrorsEnd(s: Store, ns: set<TrieNode>, node: TrieNode)
    requires s.Keys == ns && node in ns
    requires forall n :: n in ns && n != node ==> s[n] == Cell(n.children, n.isEnd)
    requires node.children == s[node].children && node.isEnd
    ensures Mirrors(s[node := Cell(s[node].children, true)], ns)
  {
  }

  /**
   * `node.putNewNode(ch, new TrieNode())` on a node that lacks `ch`: the record
   * gains the fresh, empty child and nothing else changes.
   */
  method PutFreshChild(node: TrieNode, ch: char, ghost s: Store, ghost ns: set<TrieNode>) returns (f: TrieNode)
    requires Mirrors(s, ns) && node in ns && Lookup(s[node].children, ch).None?
    modifies node
    ensures fresh(f) && f !in ns && Mirrors(AddChild(s, node, ch, f), ns + {f})
    ensures node.GetNextNode(ch) == Some(f)
  {
    f := new TrieNode();
    node.PutNewNode(ch, f);
    MirrorsAdd(s, ns, node, ch, f);
  }

  /** Adding an element that is not in a set grows it by exactly that element. */
  lemma Grow<T>(ns: set<T>, f: T)
    requires f !in ns
    ensures ns <= ns + {f} && (ns + {f}) - ns == {f} && |ns + {f}| == |ns| + 1
  {
  }

  /** Every child of a node of `s` is in `s`. */
  ghost predicate Closed(s: Store) {
    forall n, i :: n in s && 0 <= i < |s[n].children| ==> s[n].children[i].1 in s
  }

  ghost predicate Keyed(s: Store) {
    forall n :: n in s ==> UniqueKeys(s[n].children)
  }

  /** Each node is the child of at most one entry of one node, and `root` of none. */
  ghost predicate Unshared(s: Store, root: TrieNode) {
    (forall n, n', i, j ::
      n in s && n' in s && 0 <= i < |s[n].children| && 0 <= j < |s[n'].children| &&
      s[n].children[i].1 == s[n'].children[j].1
      ==> n == n' && i == j) &&
    (forall n, i :: n in s && 0 <= i < |s[n].children| ==> s[n].children[i].1 != root)
  }

  /** The nodes of `s` form a tree with root `root` and unique keys. */
  ghost predicate Shaped(s: Store, root: TrieNode) {
    root in s && Closed(s) && Keyed(s) && Unshared(s, root)
  }

  /** The abstract tree of `n` built from its own fields and the abstract trees `m` of its children. */
  ghost function ViewOf(s: Store, m: map<TrieNode, Tree>, n: TrieNode): Tree
    requires n in s && forall i :: 0 <= i < |s[n].children| ==> s[n].children[i].1 in m
  {
    Tree(MapValues(s[n].children, m), s[n].isEnd)
  }

  /** Except for the nodes in `except`, each node's abstract tree is what its fields say. */
  ghost predicate Consistent(s: Store, m: map<TrieNode, Tree>, except: set<TrieNode>)
    requires Closed(s) && s.Keys <= m.Keys
  {
    forall n {:trigger ViewOf(s, m, n)} :: n in s && n !in except ==> m[n] == ViewOf(s, m, n)
  }

  /** No consistent node is its own child. */
  lemma ChildNotSelf(s: Store, m: map<TrieNode, Tree>, n: TrieNode, i: nat)
    requires n in s && forall k :: 0 <= k < |s[n].children| ==> s[n].children[k].1 in m
    requires n in m && m[n] == ViewOf(s, m, n) && i < |s[n].children|
    ensures s[n].children[i].1 != n
  {
    KidSmaller(m[n], i);
  }

  // ---------------------------------------------------------------------------
  // The state of `insert` between two iterations of its loop

  /**
   * `path` lists the nodes `insert` has visited after `i` characters of `word`:
   * it starts at the root, follows `word` one child at a time and visits no node twice.
   */
  ghost predicate OnPath(s: Store, root: TrieNode, word: seq<char>, path: seq<TrieNode>, i: nat) {
    i <= |word| && |path| == i + 1 && path[0] == root &&
    (forall j :: 0 <= j <= i ==> path[j] in s) &&
    (forall j :: 0 <= j < i ==> Lookup(s[path[j]].children, word[j]) == Some(path[j + 1])) &&
    (forall j, k :: 0 <= j < k <= i ==> path[j] != path[k])
  }

  /** The node set of `s` with the entry `(ch, f)` appended to `node` and `f` a new node. */
  ghost function AddChild(s: Store, node: TrieNode, ch: char, f: TrieNode): Store
    requires node in s
  {
    s[node := Cell(s[node].children + [(ch, f)], s[node].isEnd)][f := Cell([], false)]
  }

  /** The nodes consistent in the middle of the loop: all but the cursor's parent. */
  ghost function Settled(path: seq<TrieNode>, i: nat): set<TrieNode>
    requires i < |path|
  {
    if i == 0 then {} else {path[i - 1]}
  }

  /**
   * After `i` characters of `word`, the cursor is `path[i]`.  Every node is
   * consistent except the cursor's parent, whose abstract tree already holds the
   * tree the cursor will have once the rest of `word` is inserted below it, and the
   * root already holds the final tree.
   */
  ghost predicate Descending(s: Store, m: map<TrieNode, Tree>, root: TrieNode, t0: Tree,
                             word: seq<char>, path: seq<TrieNode>, i: nat)
  {
    Shaped(s, root) && s.Keys == m.Keys && OnPath(s, root, word, path, i) &&
    Consistent(s, m, Settled(path, i)) &&
    (i > 0 ==> m[path[i - 1]] == ViewOf(s, m[path[i] := InsertTree(m[path[i]], word[i..])], path[i - 1])) &&
    m[root] == (if i == 0 then t0 else InsertTree(t0, word))
  }

  /** Only the cursor's parent has the cursor as a child, and the root is nobody's child. */
  lemma CursorParent(s: Store, root: TrieNode, word: seq<char>, path: seq<TrieNode>, i: nat,
                     n: TrieNode, k: nat)
    requires Shaped(s, root) && OnPath(s, root, word, path, i)
    requires n in s && k < |s[n].children| && s[n].children[k].1 == path[i]
    ensures i > 0 && n == path[i - 1]
  {
    if i > 0 {
      assert Lookup(s[path[i - 1]].children, word[i - 1]) == Some(path[i]);
      var k0 :| 0 <= k0 < |s[path[i - 1]].children| && s[path[i - 1]].children[k0] == (word[i - 1], path[i]);
    }
  }

  /** No node other than the cursor's parent has the cursor as a child. */
  lemma CursorNotChild(s: Store, root: TrieNode, word: seq<char>, path: seq<TrieNode>, i: nat, n: TrieNode)
    requires Shaped(s, root) && OnPath(s, root, word, path, i)
    requires n in s && !(i > 0 && n == path[i - 1])
    ensures forall k :: 0 <= k < |s[n].children| ==> s[n].children[k].1 != path[i]
  {
    forall k | 0 <= k < |s[n].children| ensures s[n].children[k].1 != path[i] {
      if s[n].children[k].1 == path[i] {
        CursorParent(s, root, word, path, i, n, k);
      }
    }
  }

  /** A child of the cursor is not yet on the path. */
  lemma ChildOffPath(s: Store, root: TrieNode, word: seq<char>, path: seq<TrieNode>, i: nat, kc: nat)
    requires Shaped(s, root) && OnPath(s, root, word, path, i)
    requires kc < |s[path[i]].children|
    ensures forall k :: 0 <= k <= i ==> path[k] != s[path[i]].children[kc].1
  {
    var c := s[path[i]].children[kc].1;
    forall k | 0 <= k <= i ensures path[k] != c {
      if k > 0 {
        assert Lookup(s[path[k - 1]].children, word[k - 1]) == Some(path[k]);
        var k0 :| 0 <= k0 < |s[path[k - 1]].children| && s[path[k - 1]].children[k0] == (word[k - 1], path[k]);
      }
    }
  }

  /** The cursor is not the root unless no character has been consumed. */
  lemma CursorRoot(s: Store, root: TrieNode, word: seq<char>, path: seq<TrieNode>, i: nat)
    requires Shaped(s, root) && OnPath(s, root, word, path, i)
    ensures path[i] == root <==> i == 0
  {
    if i > 0 {
      assert Lookup(s[path[i - 1]].children, word[i - 1]) == Some(path[i]);
      var k0 :| 0 <= k0 < |s[path[i - 1]].children| && s[path[i - 1]].children[k0] == (word[i - 1], path[i]);
    }
  }

  /** The cursor's abstract tree and its children, read off `Descending`. */
  lemma CursorConsistent(s: Store, m: map<TrieNode, Tree>, root: TrieNode, t0: Tree,
                         word: seq<char>, path: seq<TrieNode>, i: nat)
    requires Descending(s, m, root, t0, word, path, i)
    ensures m[path[i]] == ViewOf(s, m, path[i])
    ensures forall k :: 0 <= k < |s[path[i]].children| ==> s[path[i]].children[k].1 != path[i]
  {
    forall k | 0 <= k < |s[path[i]].children| ensures s[path[i]].children[k].1 != path[i] {
      ChildNotSelf(s, m, path[i], k);
    }
  }

  // --- a missing child is created

  lemma AddShaped(s: Store, root: TrieNode, node: TrieNode, ch: char, f: TrieNode)
    requires Shaped(s, root) && node in s && f !in s
    requires Lookup(s[node].children, ch).None?
    ensures Shaped(AddChild(s, node, ch, f), root)
  {
    var kids := s[node].children;
    var s' := AddChild(s, node, ch, f);
    assert kids + [(ch, f)] == Put(kids, ch, f);
    PutKeys(kids, ch, f);
    forall n, n', a, b |
      n in s' && n' in s' && 0 <= a < |s'[n].children| && 0 <= b < |s'[n'].children| &&
      s'[n].children[a].1 == s'[n'].children[b].1
      ensures n == n' && a == b
    {
      if s'[n].children[a].1 == f {
        assert n == node && a == |kids|;
        assert n' == node && b == |kids|;
      }
    }
  }

  lemma AddOnPath(s: Store, root: TrieNode, word: seq<char>, path: seq<TrieNode>, i: nat, f: TrieNode)
    requires OnPath(s, root, word, path, i) && i < |word| && f !in s
    requires Lookup(s[path[i]].children, word[i]).None?
    ensures OnPath(AddChild(s, path[i], word[i], f), root, word, path + [f], i + 1)
  {
    var kids := s[path[i]].children;
    var s' := AddChild(s, path[i], word[i], f);
    assert kids + [(word[i], f)] == Put(kids, word[i], f);
    PutLookup(kids, word[i], f, word[i]);
    forall j | 0 <= j < i + 1 ensures Lookup(s'[(path + [f])[j]].children, word[j]) == Some((path + [f])[j + 1]) {
      if j < i {
        assert path[j] != path[i];
      }
    }
  }

  lemma AddConsistent(s: Store, m: map<TrieNode, Tree>, root: TrieNode,
                      word: seq<char>, path: seq<TrieNode>, i: nat, x: Tree, f: TrieNode)
    requires Shaped(s, root) && s.Keys == m.Keys && OnPath(s, root, word, path, i) && i < |word| && f !in s
    requires Consistent(s, m, Settled(path, i))
    requires i > 0 ==> m[path[i - 1]] == ViewOf(s, m[path[i] := x], path[i - 1])
    ensures var s' := AddChild(s, path[i], word[i], f);
      var m' := m[f := Leaf][path[i] := x];
      Closed(s') && s'.Keys == m'.Keys && Consistent(s', m', {path[i]})
  {
    var node := path[i];
    var s' := AddChild(s, node, word[i], f);
    var m' := m[f := Leaf][node := x];
    assert Closed(s');
    forall n | n in s' && n != node ensures m'[n] == ViewOf(s', m', n) {
      if n != f {
        var c := s[n].children;
        assert s'[n] == s[n];
        assert forall k :: 0 <= k < |c| ==> c[k].1 != f;
        if i > 0 && n == path[i - 1] {
          assert m' == m[node := x][f := Leaf];
          MapValuesFrame(c, m[node := x], f, Leaf);
        } else {
          CursorNotChild(s, root, word, path, i, n);
          assert m[n] == ViewOf(s, m, n);
          MapValuesFrame(c, m, f, Leaf);
          MapValuesFrame(c, m[f := Leaf], node, x);
        }
      }
    }
  }

  lemma AddPending(s: Store, m: map<TrieNode, Tree>, node: TrieNode, w: seq<char>, f: TrieNode)
    requires Closed(s) && s.Keys == m.Keys && node in s && f !in s && w != []
    requires m[node] == ViewOf(s, m, node)
    requires forall k :: 0 <= k < |s[node].children| ==> s[node].children[k].1 != node
    requires Lookup(s[node].children, w[0]).None?
    ensures var s' := AddChild(s, node, w[0], f);
      var m' := m[f := Leaf][node := InsertTree(m[node], w)];
      m'[node] == ViewOf(s', m'[f := InsertTree(m'[f], w[1..])], node)
  {
    var ch, rest := w[0], w[1..];
    var kids := s[node].children;
    var sub := m[node];
    var x := InsertTree(sub, w);
    var m' := m[f := Leaf][node := x];
    var y := InsertTree(Leaf, rest);
    assert forall k :: 0 <= k < |kids| ==> kids[k].1 in s && kids[k].1 != f;
    assert m'[f := y] == m[node := x][f := y];
    MapValuesAppend(kids, m[node := x][f := y], ch, f);
    MapValuesFrame(kids, m, node, x);
    MapValuesFrame(kids, m[node := x], f, y);
    IndexOfMapValues(kids, m, ch);
    assert x == Tree(sub.children + [(ch, y)], sub.isEnd);
  }

  /** One iteration of the loop of `insert` in which the child for `word[i]` is missing and `f` is created. */
  lemma DescendNew(s: Store, m: map<TrieNode, Tree>, root: TrieNode, t0: Tree,
                   word: seq<char>, path: seq<TrieNode>, i: nat, f: TrieNode)
    requires Descending(s, m, root, t0, word, path, i) && i < |word| && f !in s
    requires Lookup(s[path[i]].children, word[i]).None?
    ensures Descending(AddChild(s, path[i], word[i], f),
                       m[f := Leaf][path[i] := InsertTree(m[path[i]], word[i..])],
                       root, t0, word, path + [f], i + 1)
  {
    var node, ch := path[i], word[i];
    var x := InsertTree(m[node], word[i..]);
    AddShaped(s, root, node, ch, f);
    AddOnPath(s, root, word, path, i, f);
    AddConsistent(s, m, root, word, path, i, x, f);
    CursorConsistent(s, m, root, t0, word, path, i);
    AddPending(s, m, node, word[i..], f);
    CursorRoot(s, root, word, path, i);
  }

  // --- an existing child is followed

  lemma FollowConsistent(s: Store, m: map<TrieNode, Tree>, root: TrieNode, t0: Tree,
                         word: seq<char>, path: seq<TrieNode>, i: nat)
    requires Descending(s, m, root, t0, word, path, i) && i < |word|
    ensures Consistent(s, m[path[i] := InsertTree(m[path[i]], word[i..])], {path[i]})
  {
    var node := path[i];
    var m' := m[node := InsertTree(m[node], word[i..])];
    forall n | n in s && n != node ensures m'[n] == ViewOf(s, m', n) {
      if !(i > 0 && n == path[i - 1]) {
        CursorNotChild(s, root, word, path, i, n);
        assert m[n] == ViewOf(s, m, n);
        MapValuesFrame(s[n].children, m, node, InsertTree(m[node], word[i..]));
      }
    }
  }

  lemma FollowPending(s: Store, m: map<TrieNode, Tree>, root: TrieNode, t0: Tree,
                      word: seq<char>, path: seq<TrieNode>, i: nat, j: nat)
    requires Descending(s, m, root, t0, word, path, i) && i < |word|
    requires IndexOf(s[path[i]].children, word[i]) == Some(j)
    ensures var next := s[path[i]].children[j].1;
      var m' := m[path[i] := InsertTree(m[path[i]], word[i..])];
      next in m && m'[path[i]] == ViewOf(s, m'[next := InsertTree(m'[next], word[i + 1..])], path[i])
  {
    var node, ch, rest := path[i], word[i], word[i + 1..];
    var kids := s[node].children;
    var sub := m[node];
    var x := InsertTree(sub, word[i..]);
    var next := kids[j].1;
    var m' := m[node := x];
    assert word[i..][0] == ch && word[i..][1..] == rest;
    CursorConsistent(s, m, root, t0, word, path, i);
    assert next != node;
    var y := InsertTree(m[next], rest);
    MapValuesAt(kids, m', j, y);
    MapValuesFrame(kids, m, node, x);
    IndexOfMapValues(kids, m, ch);
  }

  /** One iteration of the loop of `insert` in which the child for `word[i]` exists. */
  lemma DescendOld(s: Store, m: map<TrieNode, Tree>, root: TrieNode, t0: Tree,
                   word: seq<char>, path: seq<TrieNode>, i: nat)
    requires Descending(s, m, root, t0, word, path, i) && i < |word|
    requires Lookup(s[path[i]].children, word[i]).Some?
    ensures Descending(s, m[path[i] := InsertTree(m[path[i]], word[i..])],
                       root, t0, word, path + [Lookup(s[path[i]].children, word[i]).value], i + 1)
  {
    var node, ch := path[i], word[i];
    var kids := s[node].children;
    var j := IndexOf(kids, ch).value;
    var next := kids[j].1;
    var m' := m[node := InsertTree(m[node], word[i..])];
    var path' := path + [next];
    assert Lookup(kids, ch) == Some(next);
    ChildOffPath(s, root, word, path, i, j);
    assert OnPath(s, root, word, path', i + 1);
    FollowConsistent(s, m, root, t0, word, path, i);
    FollowPending(s, m, root, t0, word, path, i, j);
    CursorRoot(s, root, word, path, i);
    assert m'[root] == InsertTree(t0, word);
  }

  /** After the loop, marking the cursor makes every node consistent again. */
  lemma DescendEnd(s: Store, m: map<TrieNode, Tree>, root: TrieNode, t0: Tree,
                   word: seq<char>, path: seq<TrieNode>)
    requires Descending(s, m, root, t0, word, path, |word|)
    ensures var node := path[|word|];
      var s' := s[node := Cell(s[node].children, true)];
      var m' := m[node := InsertTree(m[node], [])];
      Shaped(s', root) && s'.Keys == m'.Keys && Consistent(s', m', {}) &&
      m'[root] == InsertTree(t0, word)
  {
    var i := |word|;
    var node := path[i];
    var kids := s[node].children;
    var s' := s[node := Cell(kids, true)];
    var x := InsertTree(m[node], []);
    var m' := m[node := x];
    assert word[i..] == [] && word[..i] == word;
    CursorConsistent(s, m, root, t0, word, path, i);
    CursorRoot(s, root, word, path, i);
    forall n | n in s' ensures m'[n] == ViewOf(s', m', n) {
      if n == node {
        MapValuesFrame(kids, m, node, x);
      } else if !(i > 0 && n == path[i - 1]) {
        CursorNotChild(s, root, word, path, i, n);
        assert m[n] == ViewOf(s, m, n);
        MapValuesFrame(s[n].children, m, node, x);
      }
    }
  }

  // --- re-inserting a word whose path already exists

  /** If `word` already has a path in `t0`, the child `insert` looks for is always there. */
  lemma ExistingPathMissing(s: Store, m: map<TrieNode, Tree>, root: TrieNode, t0: Tree,
                            word: seq<char>, path: seq<TrieNode>, i: nat)
    requires Descending(s, m, root, t0, word, path, i) && i < |word|
    requires Subtree(t0, word[..i]) == Some(m[path[i]])
    requires Lookup(s[path[i]].children, word[i]).None?
    ensures !HasPath(t0, word)
  {
    CursorConsistent(s, m, root, t0, word, path, i);
    IndexOfMapValues(s[path[i]].children, m, word[i]);
    SubtreeSnoc(t0, word[..i], word[i]);
    PrefixSnoc(word, i);
    if HasPath(t0, word) {
      PrefixHasPath(t0, word[..i + 1], word);
    }
  }

  /** Following an existing child follows the same path in `t0`. */
  lemma ExistingPathFollow(s: Store, m: map<TrieNode, Tree>, root: TrieNode, t0: Tree,
                           word: seq<char>, path: seq<TrieNode>, i: nat)
    requires Descending(s, m, root, t0, word, path, i) && i < |word|
    requires Subtree(t0, word[..i]) == Some(m[path[i]])
    requires Lookup(s[path[i]].children, word[i]).Some?
    ensures Subtree(t0, word[..i + 1]) == Some(m[Lookup(s[path[i]].children, word[i]).value])
  {
    CursorConsistent(s, m, root, t0, word, path, i);
    IndexOfMapValues(s[path[i]].children, m, word[i]);
    SubtreeSnoc(t0, word[..i], word[i]);
    PrefixSnoc(word, i);
  }

  /**
   * The invariant of a trie: `s` and `m` describe the same nodes, the nodes form
   * a tree whose abstract trees agree with their fields, and the words of the root's
   * tree are `words`.
   */
  ghost predicate Sound(s: Store, m: map<TrieNode, Tree>, root: TrieNode, words: set<seq<char>>) {
    s.Keys == m.Keys && Shaped(s, root) && Consistent(s, m, {}) &&
    WF(m[root]) &&
    (forall q :: IsWord(m[root], q) <==> q in words)
  }

  /** A sound trie is ready for the loop of `insert`, with the cursor at the root. */
  lemma DescendStart(s: Store, m: map<TrieNode, Tree>, root: TrieNode, words: set<seq<char>>, word: seq<char>)
    requires Sound(s, m, root, words)
    ensures Descending(s, m, root, m[root], word, [root], 0)
  {
  }

  /** After the loop and `setIsEnd`, the trie is sound again and holds `word`. */
  lemma InsertSound(s: Store, m: map<TrieNode, Tree>, root: TrieNode, t0: Tree,
                    word: seq<char>, path: seq<TrieNode>, words: set<seq<char>>)
    requires Descending(s, m, root, t0, word, path, |word|)
    requires WF(t0) && forall q :: IsWord(t0, q) <==> q in words
    ensures var node := path[|word|];
      Sound(s[node := Cell(s[node].children, true)], m[node := InsertTree(m[node], [])], root, words + {word}) &&
      m[node := InsertTree(m[node], [])][root] == InsertTree(t0, word)
  {
    DescendEnd(s, m, root, t0, word, path);
    InsertWF(t0, word);
    forall q ensures IsWord(InsertTree(t0, word), q) <==> q in words + {word} {
      InsertIsWord(t0, word, q);
    }
  }

  class Trie {
    const root: TrieNode
    ghost var nodes: set<TrieNode>
    ghost var abs: map<TrieNode, Tree>
    /** The words inserted so far. */
    ghost var words: set<seq<char>>

    ghost predicate Valid()
      reads this, nodes
    {
      Sound(Snapshot(nodes), abs, root, words)
    }

    /** The abstract value of the whole trie. */
    ghost function Contents(): Tree
      reads this, nodes
      requires Valid()
    {
      abs[root]
    }

    /**
     * What a walk over the trie relies on: the root is a node of the trie, and
     * every node's abstract tree agrees with its fields.
     */
    ghost predicate Mirrored()
      reads this, nodes
    {
      root in nodes && forall n :: n in nodes ==> Agrees(n)
    }

    /**
     * The flag and the children of `n`, in order, are those of its abstract
     * tree, and each child is a node of the trie whose abstract tree sits under
     * the same key.
     */
    ghost predicate Agrees(n: TrieNode)
      reads this, n
    {
      n in abs && abs[n].isEnd == n.isEnd && |abs[n].children| == |n.children| &&
      forall k :: 0 <= k < |n.children| ==>
        n.children[k].1 in nodes && n.children[k].1 in abs && abs[n].children[k] == (n.children[k].0, abs[n.children[k].1])
    }

    lemma ValidMirrored()
      requires Valid()
      ensures Mirrored()
    {
      var s := Snapshot(nodes);
      forall n | n in nodes
        ensures Agrees(n)
      {
        assert s[n] == Cell(n.children, n.isEnd);
        assert abs[n] == ViewOf(s, abs, n);
      }
    }

    /** A new trie is a single fresh node: no children, no word. */
    constructor ()
      ensures Valid() && fresh(nodes) && nodes == {root}
      ensures Contents() == Leaf && words == {}
    {
      var r := new TrieNode();
      root := r;
      nodes := {r};
      abs := map[r := Leaf];
      words := {};
      LeafPaths([]);
      forall q ensures !IsWord(Leaf, q) {
        LeafPaths(q);
      }
    }

    /** The end of `insert`: mark the node the loop stopped at and record the new state. */
    method Finish(node: TrieNode, ghost s: Store, ghost m: map<TrieNode, Tree>,
                  ghost ns: set<TrieNode>, ghost t0: Tree, ghost word: seq<char>,
                  ghost path: seq<TrieNode>)
      requires Mirrors(s, ns) && Descending(s, m, root, t0, word, path, |word|) && node == path[|word|]
      requires WF(t0) && forall q :: IsWord(t0, q) <==> q in words
      modifies this, node
      ensures Valid() && Contents() == InsertTree(t0, word)
      ensures nodes == ns && words == old(words) + {word}
    {
      node.SetIsEnd();
      MirrorsEnd(s, ns, node);
      InsertSound(s, m, root, t0, word, path, words);
      ghost var s' := s[node := Cell(s[node].children, true)];
      nodes, abs, words := ns, m[node := InsertTree(m[node], [])], words + {word};
      MirrorsSnapshot(s', nodes);
    }

    /**
     * One iteration of the loop of `insert`: create the child for `ch` if `node`
     * lacks it, then step into that child.
     */
    method Advance(node: TrieNode, ch: char, ghost s: Store, ghost m: map<TrieNode, Tree>,
                   ghost ns: set<TrieNode>, ghost t0: Tree, ghost word: seq<char>,
                   ghost path: seq<TrieNode>, ghost i: nat)
      returns (next: TrieNode, ghost s': Store, ghost m': map<TrieNode, Tree>,
               ghost ns': set<TrieNode>, ghost path': seq<TrieNode>)
      requires Mirrors(s, ns) && Descending(s, m, root, t0, word, path, i)
      requires i < |word| && ch == word[i] && node == path[i]
      modifies node
      ensures Mirrors(s', ns') && Descending(s', m', root, t0, word, path', i + 1)
      ensures next == path'[i + 1]
      ensures ns <= ns' && fresh(ns' - ns) && |ns'| <= |ns| + 1
      ensures HasPath(t0, word) && Subtree(t0, word[..i]) == Some(m[node]) ==>
        ns' == ns && Subtree(t0, word[..i + 1]) == Some(m'[next])
      ensures Lookup(s[node].children, ch).Some? ==> ns' == ns && s' == s && node.children == old(node.children)
      ensures Lookup(s[node].children, ch).None? ==> fresh(next) && ns' == ns + {next}
    {
      if !node.Contains(ch) {
        s', m', ns', path' := AddStep(node, ch, s, m, ns, t0, word, path, i);
      } else {
        s', m', ns', path' := FollowStep(node, ch, s, m, ns, t0, word, path, i);
      }
      next := node.GetNextNode(ch).value;
    }

    /** The branch of the loop body that finds no child for `ch` and creates one, which `getNextNode(ch)` then returns. */
    method AddStep(node: TrieNode, ch: char, ghost s: Store, ghost m: map<TrieNode, Tree>,
                 ghost ns: set<TrieNode>, ghost t0: Tree, ghost word: seq<char>,
                 ghost path: seq<TrieNode>, ghost i: nat)
      returns (ghost s': Store, ghost m': map<TrieNode, Tree>,
               ghost ns': set<TrieNode>, ghost path': seq<TrieNode>)
      requires Mirrors(s, ns) && Descending(s, m, root, t0, word, path, i)
      requires i < |word| && ch == word[i] && node == path[i]
      requires Lookup(s[node].children, ch).None?
      modifies node
      ensures Mirrors(s', ns') && Descending(s', m', root, t0, word, path', i + 1)
      ensures node.GetNextNode(ch) == Some(path'[i + 1])
      ensures ns <= ns' && fresh(ns' - ns) && |ns'| <= |ns| + 1
      ensures HasPath(t0, word) && Subtree(t0, word[..i]) == Some(m[node]) ==>
                ns' == ns && Subtree(t0, word[..i + 1]) == Some(m'[path'[i + 1]])
      ensures fresh(path'[i + 1]) && ns' == ns + {path'[i + 1]}
    {
      if HasPath(t0, word) && Subtree(t0, word[..i]) == Some(m[node]) {
        ExistingPathMissing(s, m, root, t0, word, path, i);
      }
      var f := PutFreshChild(node, ch, s, ns);
      DescendNew(s, m, root, t0, word, path, i, f);
      Grow(ns, f);
      ghost var m1: map<TrieNode, Tree> := m[f := Leaf];
      s', m', ns', path' := AddChild(s, node, ch, f), m1[node := InsertTree(m[node], word[i..])], ns + {f}, path + [f];
    }

    /** The branch of the loop body that finds the child for `ch`, which `getNextNode(ch)` returns. */
    method FollowStep(node: TrieNode, ch: char, ghost s: Store, ghost m: map<TrieNode, Tree>,
                 ghost ns: set<TrieNode>, ghost t0: Tree, ghost word: seq<char>,
                 ghost path: seq<TrieNode>, ghost i: nat)
      returns (ghost s': Store, ghost m': map<TrieNode, Tree>,
               ghost ns': set<TrieNode>, ghost path': seq<TrieNode>)
      requires Mirrors(s, ns) && Descending(s, m, root, t0, word, path, i)
      requires i < |word| && ch == word[i] && node == path[i]
      requires Lookup(s[node].children, ch).Some?
      ensures Mirrors(s', ns') && Descending(s', m', root, t0, word, path', i + 1)
      ensures node.GetNextNode(ch) == Some(path'[i + 1])
      ensures ns <= ns' && fresh(ns' - ns) && |ns'| <= |ns| + 1
      ensures HasPath(t0, word) && Subtree(t0, word[..i]) == Some(m[node]) ==>
                ns' == ns && Subtree(t0, word[..i + 1]) == Some(m'[path'[i + 1]])
      ensures s' == s && ns' == ns
    {
      if HasPath(t0, word) && Subtree(t0, word[..i]) == Some(m[node]) {
        ExistingPathFollow(s, m, root, t0, word, path, i);
      }
      DescendOld(s, m, root, t0, word, path, i);
      s', m', ns', path' := s, m[node := InsertTree(m[node], word[i..])], ns, path + [Lookup(s[node].children, ch).value];
    }

    /**
     * `insert(word)`: walk `word` from the root, creating each missing child, and
     * mark the last node.  The trie afterwards holds `InsertTree` of its old
     * contents; it gains at most one node per character, and none when the path of
     * `word` already existed.
     */
    method Insert(word: seq<char>)
      requires Valid()
      modifies this, nodes
      ensures Valid()
      ensures Contents() == InsertTree(old(Contents()), word)
      ensures words == old(words) + {word}
      ensures old(nodes) <= nodes && fresh(nodes - old(nodes)) && |nodes| <= |old(nodes)| + |word|
      ensures HasPath(old(Contents()), word) ==> nodes == old(nodes)
    {
      ghost var t0 := abs[root];
      DescendStart(Snapshot(nodes), abs, root, words, word);
      var node, s, m, ns, path := Walk(word, t0);
      Finish(node, s, m, ns, t0, word, path);
    }

    /**
     * The loop of `insert`: from the root, step into the child for each
     * character of `word` in turn, creating it when it is missing.
     */
    method Walk(word: seq<char>, ghost t0: Tree)
      returns (node: TrieNode, ghost s: Store, ghost m: map<TrieNode, Tree>,
               ghost ns: set<TrieNode>, ghost path: seq<TrieNode>)
      requires Mirrors(Snapshot(nodes), nodes) && Descending(Snapshot(nodes), abs, root, t0, word, [root], 0)
      modifies nodes
      ensures Mirrors(s, ns) && Descending(s, m, root, t0, word, path, |word|) && node == path[|word|]
      ensures nodes <= ns && fresh(ns - nodes) && |ns| <= |nodes| + |word|
      ensures HasPath(t0, word) ==> ns == nodes
    {
      s, path, ns, m := Snapshot(nodes), [root], nodes, abs;
      node := root;
      for i := 0 to |word|
        invariant Mirrors(s, ns)
        invariant Descending(s, m, root, t0, word, path, i)
        invariant node == path[i]
        invariant nodes <= ns && fresh(ns - nodes) && |ns| <= |nodes| + i
        invariant HasPath(t0, word) ==> ns == nodes && Subtree(t0, word[..i]) == Some(m[node])
      {
        node, s, m, ns, path := Advance(node, word[i], s, m, ns, t0, word, path, i);
      }
    }
  }
}
