/**
 * The abstract value of a trie: each node is a `Tree` whose `children` is the
 * ordered association list of its outgoing edges (key = the edge's character)
 * and whose `isEnd` flag marks the end of an inserted word.  `InsertTree` is the
 * reference definition of `Trie.insert` on these values.
 */
module TrieTree {
  import opened AssocList

  datatype Tree = Tree(children: seq<(char, Tree)>, isEnd: bool)

  /** The value of a freshly constructed `TrieNode`: no children, not the end of a word. */
  const Leaf: Tree := Tree([], false)

  /** Keys are unique at every node. */
  ghost predicate WF(t: Tree)
    decreases t
  {
    UniqueKeys(t.children) &&
    forall i :: 0 <= i < |t.children| ==> WF(t.children[i].1)
  }

  /** The node reached from `t` by following the characters of `q`, if every step exists. */
  function Subtree(t: Tree, q: seq<char>): Option<Tree>
    decreases |q|
  {
    if q == [] then Some(t)
    else match Lookup(t.children, q[0])
      case None => None
      case Some(c) => Subtree(c, q[1..])
  }

  predicate HasPath(t: Tree, q: seq<char>) {
    Subtree(t, q).Some?
  }

  /** `q` leads to a node whose `isEnd` flag is set. */
  predicate IsWord(t: Tree, q: seq<char>) {
    Subtree(t, q).Some? && Subtree(t, q).value.isEnd
  }

  /** Inserting `w`: create each missing child along `w`, then mark the last node. */
  function InsertTree(t: Tree, w: seq<char>): (r: Tree)
    ensures r.isEnd == (w == [] || t.isEnd)
    ensures |t.children| <= |r.children| <= |t.children| + 1
    decreases |w|
  {
    if w == [] then Tree(t.children, true)
    else
      var next := match Lookup(t.children, w[0]) case Some(c) => c case None => Leaf;
      Tree(Put(t.children, w[0], InsertTree(next, w[1..])), t.isEnd)
  }

  /** The number of nodes. */
  function Size(t: Tree): nat
    decreases t, 1
  {
    1 + KidsSize(t, |t.children|)
  }

  /** The number of nodes below the first `n` children of `t`. */
  function KidsSize(t: Tree, n: nat): nat
    requires n <= |t.children|
    decreases t, 0, n
  {
    if n == 0 then 0 else KidsSize(t, n - 1) + Size(t.children[n - 1].1)
  }

  /**
   * `b` is `a` with possibly more children appended at each node and possibly more
   * `isEnd` flags set: no child of `a` is removed, replaced or reordered.
   */
  ghost predicate Extends(a: Tree, b: Tree)
    decreases a
  {
    |a.children| <= |b.children| &&
    (a.isEnd ==> b.isEnd) &&
    forall i :: 0 <= i < |a.children| ==>
      a.children[i].0 == b.children[i].0 && Extends(a.children[i].1, b.children[i].1)
  }

  // ---------------------------------------------------------------------------
  // Paths

  /** The prefix of length `i + 1` is the prefix of length `i` and one more character. */
  lemma PrefixSnoc(w: seq<char>, i: nat)
    requires i < |w|
    ensures w[..i] + [w[i]] == w[..i + 1]
  {
  }

  /** Extending a path by one character is one more lookup. */
  lemma {:induction false} SubtreeSnoc(t: Tree, p: seq<char>, c: char)
    ensures Subtree(t, p + [c]) ==
      match Subtree(t, p)
      case None => None
      case Some(s) => Lookup(s.children, c)
    decreases |p|
  {
    if p == [] {
      assert p + [c] == [c];
      assert [c][1..] == [];
    } else {
      assert (p + [c])[0] == p[0];
      assert (p + [c])[1..] == p[1..] + [c];
      match Lookup(t.children, p[0])
      case None =>
      case Some(k) => SubtreeSnoc(k, p[1..], c);
    }
  }

  /** Every prefix of a path is a path. */
  lemma {:induction false} PrefixHasPath(t: Tree, p: seq<char>, q: seq<char>)
    requires p <= q && HasPath(t, q)
    ensures HasPath(t, p)
    decreases |p|
  {
    if p != [] {
      assert p[0] == q[0];
      PrefixHasPath(Lookup(t.children, q[0]).value, p[1..], q[1..]);
    }
  }

  /** A fresh node has only the empty path, and it is not a word. */
  lemma LeafPaths(q: seq<char>)
    ensures HasPath(Leaf, q) <==> q == []
    ensures !IsWord(Leaf, q)
  {
  }

  // ---------------------------------------------------------------------------
  // Properties of insertion

  /** The child that `InsertTree` descends into at the first character of `w`. */
  function NextOf(t: Tree, c: char): Tree {
    match Lookup(t.children, c) case Some(k) => k case None => Leaf
  }

  /** One step of insertion: the child for `w[0]` becomes `InsertTree(NextOf(t, w[0]), w[1..])`. */
  lemma InsertStep(t: Tree, w: seq<char>, c: char)
    requires w != []
    ensures Lookup(InsertTree(t, w).children, c) ==
      if c == w[0] then Some(InsertTree(NextOf(t, w[0]), w[1..])) else Lookup(t.children, c)
  {
    PutLookup(t.children, w[0], InsertTree(NextOf(t, w[0]), w[1..]), c);
  }

  /** After inserting `w`, the paths are the old ones plus the prefixes of `w`. */
  lemma {:induction false} InsertHasPath(t: Tree, w: seq<char>, q: seq<char>)
    ensures HasPath(InsertTree(t, w), q) <==> HasPath(t, q) || q <= w
    decreases |w|
  {
    if w != [] && q != [] {
      InsertStep(t, w, q[0]);
      if q[0] == w[0] {
        InsertHasPath(NextOf(t, w[0]), w[1..], q[1..]);
        if Lookup(t.children, w[0]).None? {
          LeafPaths(q[1..]);
        }
        assert q <= w <==> q[1..] <= w[1..];
      }
    }
  }

  /** After inserting `w`, the words are the old ones plus `w`. */
  lemma {:induction false} InsertIsWord(t: Tree, w: seq<char>, q: seq<char>)
    ensures IsWord(InsertTree(t, w), q) <==> q == w || IsWord(t, q)
    decreases |w|
  {
    if w == [] {
      if q != [] {
        assert Lookup(InsertTree(t, w).children, q[0]) == Lookup(t.children, q[0]);
      }
    } else if q != [] {
      InsertStep(t, w, q[0]);
      if q[0] == w[0] {
        InsertIsWord(NextOf(t, w[0]), w[1..], q[1..]);
        if Lookup(t.children, w[0]).None? {
          LeafPaths(q[1..]);
        }
        assert q == w <==> q[1..] == w[1..];
      }
    }
  }

  /** Inserting a word a second time changes nothing. */
  lemma {:induction false} InsertIdempotent(t: Tree, w: seq<char>)
    ensures InsertTree(InsertTree(t, w), w) == InsertTree(t, w)
    decreases |w|
  {
    if w != [] {
      var x := InsertTree(NextOf(t, w[0]), w[1..]);
      PutEntries(t.children, w[0], x);
      var once := InsertTree(t, w);
      InsertStep(t, w, w[0]);
      assert NextOf(once, w[0]) == x;
      InsertIdempotent(NextOf(t, w[0]), w[1..]);
      PutPut(t.children, w[0], x);
    }
  }

  /** Insertion keeps keys unique. */
  lemma {:induction false} InsertWF(t: Tree, w: seq<char>)
    requires WF(t)
    ensures WF(InsertTree(t, w))
    decreases |w|
  {
    if w != [] {
      var next := NextOf(t, w[0]);
      var x := InsertTree(next, w[1..]);
      PutEntries(t.children, w[0], x);
      if Lookup(t.children, w[0]).None? {
        assert WF(Leaf);
      }
      InsertWF(next, w[1..]);
      PutKeys(t.children, w[0], x);
    }
  }

  /** Insertion never removes, replaces or reorders a child and never clears a flag. */
  lemma {:induction false} InsertExtends(t: Tree, w: seq<char>)
    ensures Extends(t, InsertTree(t, w))
    decreases |w|
  {
    if w == [] {
      ExtendsRefl(t);
    } else {
      var r := InsertTree(t, w);
      var x := InsertTree(NextOf(t, w[0]), w[1..]);
      forall i | 0 <= i < |t.children|
        ensures t.children[i].0 == r.children[i].0 && Extends(t.children[i].1, r.children[i].1)
      {
        if r.children[i] == t.children[i] {
          ExtendsRefl(t.children[i].1);
        } else {
          assert IndexOf(t.children, w[0]) == Some(i);
          InsertExtends(t.children[i].1, w[1..]);
        }
      }
    }
  }

  lemma {:induction false} ExtendsRefl(t: Tree)
    ensures Extends(t, t)
    decreases t
  {
    forall i | 0 <= i < |t.children|
      ensures Extends(t.children[i].1, t.children[i].1)
    {
      ExtendsRefl(t.children[i].1);
    }
  }

  // ---------------------------------------------------------------------------
  // Node counts

  /** Subtrees summed over the same first `n` children agree. */
  lemma {:induction false} KidsSizeSame(t: Tree, u: Tree, n: nat)
    requires n <= |t.children| && n <= |u.children|
    requires forall i :: 0 <= i < n ==> t.children[i].1 == u.children[i].1
    ensures KidsSize(t, n) == KidsSize(u, n)
  {
    if n > 0 {
      KidsSizeSame(t, u, n - 1);
    }
  }

  /** Replacing the child at `j` changes the count by the difference of the two subtrees. */
  lemma {:induction false} KidsSizeReplace(t: Tree, u: Tree, j: nat, n: nat)
    requires n <= |t.children| == |u.children| && j < |t.children|
    requires forall i :: 0 <= i < |t.children| && i != j ==> t.children[i].1 == u.children[i].1
    ensures KidsSize(u, n) == KidsSize(t, n) + (if j < n then Size(u.children[j].1) - Size(t.children[j].1) else 0)
  {
    if n > 0 {
      KidsSizeReplace(t, u, j, n - 1);
    }
  }

  /** `insert(w)` adds at most `|w|` nodes, and none when `w` is already a path. */
  lemma {:induction false} InsertSize(t: Tree, w: seq<char>)
    ensures Size(t) <= Size(InsertTree(t, w)) <= Size(t) + |w|
    ensures HasPath(t, w) ==> Size(InsertTree(t, w)) == Size(t)
    decreases |w|
  {
    var r := InsertTree(t, w);
    var n := |t.children|;
    if w == [] {
      KidsSizeSame(t, r, n);
    } else {
      var next := NextOf(t, w[0]);
      var x := InsertTree(next, w[1..]);
      InsertSize(next, w[1..]);
      match IndexOf(t.children, w[0])
      case None =>
        assert r.children == t.children + [(w[0], x)];
        KidsSizeSame(t, r, n);
        assert KidsSize(r, n + 1) == KidsSize(t, n) + Size(x);
        assert Size(Leaf) == 1;
        assert !HasPath(t, w);
      case Some(j) =>
        assert r.children == t.children[j := (w[0], x)];
        KidsSizeReplace(t, r, j, n);
    }
  }

  /** A child has fewer nodes than its parent (so no node is its own descendant). */
  lemma KidSmaller(t: Tree, i: nat)
    requires i < |t.children|
    ensures Size(t.children[i].1) < Size(t)
  {
    KidsSizeCovers(t, i, |t.children|);
  }

  lemma {:induction false} KidsSizeCovers(t: Tree, i: nat, n: nat)
    requires i < n <= |t.children|
    ensures Size(t.children[i].1) <= KidsSize(t, n)
  {
    if i < n - 1 {
      KidsSizeCovers(t, i, n - 1);
    }
  }
}
