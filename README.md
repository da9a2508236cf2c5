# Trie visualizer, modelled in Dafny

This project models the logic of a small trie visualizer:

- **The trie engine.** `TrieNode` objects are linked through their `children` dictionaries. `Trie.insert` walks a word from the root, creates each missing child, and marks the last node as the end of a word.
- **The layout builder.** `insertAndBuild` inserts the typed word and redraws the whole trie. Its recursive `traverse` closure walks the trie in pre-order and pushes one positioned node per trie node and one parent edge per non-root node onto two lists. A counter `nodeId` is local to one build. The x column `xOffset.x` is shared by the whole walk.
- **The search.** `findChildWithChar` and the decision logic of `searchWord` walk those lists from the node labelled `root`.

The model keeps the imperative shape of the source:

- `TrieNode`, `Trie`, the builder state of `insertAndBuild` and the component are classes with fields.
- `insert`, `traverse` and `searchWord` are methods with loops.
- Each method is proved against a specification function on values:
  - `InsertTree` for `Trie.insert`;
  - `Visit`/`VisitKids` for `traverse`;
  - `Expected` (walking the trie itself) for `searchWord`.
- The properties the code promises are then proved about those functions.

The modules follow the program's structure:

- `AssocList` (assoc.dfy): a JavaScript object used as a dictionary, as an ordered association list. `Object.entries` lists keys in first-insertion order. Assigning to an existing key replaces its value in place. Assigning to a new key appends it.
- `TrieTree` (tree.dfy): the abstract value of a trie (`Tree`), paths, words, `InsertTree`, node counts.
- `TrieEngine` (trie.dfy): the classes `TrieNode` and `Trie`.
  - `Trie` keeps, as ghost state, its set of nodes and the abstract tree of every node.
  - `Valid()` says the abstract trees are what the fields describe, and that the nodes reachable from the root form a tree. `nodes` may also hold detached nodes, which no operation reaches.
- `Decimal` (decimal.dfy): the decimal numeral in the node ids and its injectivity.
- `TrieLayout` (layout.dfy): the layout records and `Visit`/`VisitKids`, the functional description of one build.
  - `Flat` is an independent pre-order listing of the trie.
  - The layout is proved equal to a closed form over `Flat`: ids `node-0, node-1, …` in pre-order, `y = 120 × depth`, `x = 50 × (pre-order index − depth)`, one edge per non-root node from its parent, and labels and flags copied from the trie.
  - `Flat` is proved to list every path of the trie exactly once, each after its parent.
- `GraphSearch` (search.dfy):
  - `nodes.find`, `findChildWithChar` and the search loop, on the two lists;
  - the proof that, on the lists of one build, the search answers what walking the trie answers.
- `TrieVisualizer` (visualizer.dfy): the component's state, i.e. the trie and the displayed lists. It holds:
  - `insertAndBuild`, with `traverse` as methods of a builder object whose fields are `newNodes`, `newEdges`, `nodeId` and `xOffset.x`;
  - `searchWord`.

Two behaviours of the code that are easy to misread:

- `xOffset.x` is advanced once after each child subtree returns, not once per node placed. So a node's column is its pre-order index minus its depth, and the counter ends at the number of non-root nodes.
- `insert("")` marks the root as the end of a word. The component never calls it, because `insertAndBuild` returns early on an empty word.

## Model

| member | source | states |
|---|---|---|
| TrieEngine.TrieNode.constructor | trie-visualizer/src/components/trie/Trie.js:2-5 | a new node has no children and `isEnd` is false |
| TrieEngine.TrieNode.Contains | trie-visualizer/src/components/trie/Trie.js:7-9 | true exactly when `ch` is a key of `children` |
| TrieEngine.TrieNode.GetNextNode | trie-visualizer/src/components/trie/Trie.js:11-13 | a child exactly when `contains(ch)`, and then the child bound to `ch` |
| TrieEngine.TrieNode.PutNewNode | trie-visualizer/src/components/trie/Trie.js:15-17 | `ch` is bound to the new node, every other key reads as before, and the flag is untouched |
| TrieEngine.TrieNode.SetIsEnd | trie-visualizer/src/components/trie/Trie.js:19-21 | the flag is set and the children are untouched |
| TrieEngine.Trie.constructor | trie-visualizer/src/components/trie/Trie.js:25-27 | a new trie is one fresh node, its root, the only node it has: the empty tree, with no words |
| TrieEngine.Trie.Insert | trie-visualizer/src/components/trie/Trie.js:29-38 | the trie stays valid and its value becomes `InsertTree` of the old value; the words gain exactly `word`; old nodes stay and at most `\|word\|` fresh ones are added, none when `word` was already a path (`insert("")` marks the root) |
| TrieEngine.Trie.Walk | trie-visualizer/src/components/trie/Trie.js:30-36 | the loop ends at the node for `word`, every node on the way from the root steps by the next character, and it adds at most one fresh node per step, none when the path existed |
| TrieEngine.Trie.Advance | trie-visualizer/src/components/trie/Trie.js:32-35 | one iteration creates the child for `ch` only if it is missing, then steps to it with `getNextNode(ch)`; a missing child becomes one fresh node added to the nodes, and a present child leaves the store, the nodes and the node's `children` as they were |
| TrieEngine.Trie.AddStep | trie-visualizer/src/components/trie/Trie.js:32-35 | a missing child is created fresh, bound to `ch` and added to the nodes as the only new one, so `getNextNode(ch)` returns it |
| TrieEngine.Trie.FollowStep | trie-visualizer/src/components/trie/Trie.js:32-35 | with the child present the store and the nodes are unchanged, and `getNextNode(ch)` returns that child |
| TrieEngine.PutFreshChild | trie-visualizer/src/components/trie/Trie.js:33 | `putNewNode(ch, new TrieNode())` binds a fresh node to `ch` in the cursor's children, so `getNextNode(ch)` returns it |
| TrieEngine.Trie.Finish | trie-visualizer/src/components/trie/Trie.js:37 | marking the last node makes the trie valid with value `InsertTree(t0, word)` and the word added |
| TrieEngine.Trie.ValidMirrored | trie-visualizer/src/components/TrieVisualizer.jsx:183-205 | in a valid trie each node's flag and children in `Object.entries` order are those of its abstract tree, and each child is a node of the trie |
| TrieTree.InsertTree | trie-visualizer/src/components/trie/Trie.js:29-38 | inserting a word sets the root's end flag exactly when the word is empty and otherwise keeps it, and adds at most one child to the root; the paths, words, order and size it gives are stated by `InsertHasPath`, `InsertIsWord`, `InsertExtends` and `InsertSize` |
| TrieTree.InsertHasPath | trie-visualizer/src/components/trie/Trie.js:29-38 | after `insert(w)` the paths are the old ones plus the prefixes of `w`, so following `w` succeeds at every step |
| TrieTree.InsertIsWord | trie-visualizer/src/components/trie/Trie.js:29-38 | after `insert(w)` the words are exactly the old ones plus `w`: the end of `w` is marked and no other flag changes |
| TrieTree.InsertExtends | trie-visualizer/src/components/trie/Trie.js:32-37 | insertion never removes, replaces or reorders a child and never clears a flag |
| TrieTree.InsertIdempotent | trie-visualizer/src/components/trie/Trie.js:32-37 | inserting a word twice gives the same tree as inserting it once |
| TrieTree.InsertSize | trie-visualizer/src/components/trie/Trie.js:31-36 | insertion adds at most `\|w\|` nodes, and none when `w` is already a path |
| TrieTree.InsertWF | trie-visualizer/src/components/trie/Trie.js:32-33 | insertion keeps the keys of every node unique |
| TrieTree.LeafPaths | trie-visualizer/src/components/trie/Trie.js:2-5 | a fresh node has only the empty path and no word |
| TrieTree.PrefixHasPath | trie-visualizer/src/components/TrieVisualizer.jsx:132-140 | every prefix of a path is a path, so a missing step rules the whole query out |
| TrieTree.KidSmaller | trie-visualizer/src/components/TrieVisualizer.jsx:205-206 | a child has fewer nodes than its parent, so the recursion of `traverse` ends |
| AssocList.Put | trie-visualizer/src/components/trie/Trie.js:16 | `obj[k] = v` grows the list by one entry exactly when `k` was absent and keeps its length otherwise; what it binds is stated by `PutLookup`, `PutKeys` and `PutPut` |
| AssocList.PutLookup | trie-visualizer/src/components/trie/Trie.js:16 | after `obj[k] = v`, `obj[k]` is `v` and every other key reads as before |
| AssocList.PutKeys | trie-visualizer/src/components/trie/Trie.js:16 | `obj[k] = v` keeps every key where it was, appends `k` only when it is new, and keeps keys unique |
| AssocList.PutPut | trie-visualizer/src/components/trie/Trie.js:16 | binding the same key to the same value twice equals binding it once |
| AssocList.Lookup | trie-visualizer/src/components/trie/Trie.js:8-12 | `obj[k]` is defined exactly when some entry has key `k`, and then it is that entry's value |
| Decimal.NatToString | trie-visualizer/src/components/TrieVisualizer.jsx:172 | `${n}` for a counter value is a non-empty string of decimal digits, with a leading `0` only in `"0"`; `ParseNatToString` inverts it |
| Decimal.ParseNatToString | trie-visualizer/src/components/TrieVisualizer.jsx:172 | the decimal numeral of `nodeId` reads back as `nodeId` |
| Decimal.NatToStringInjective | trie-visualizer/src/components/TrieVisualizer.jsx:172 | different counters give different numerals |
| TrieLayout.NodeName | trie-visualizer/src/components/TrieVisualizer.jsx:172 | builds `node-` followed by the decimal digits of the counter; it has no contract of its own, and `NodeNameInjective` states that distinct counter values give distinct ids |
| TrieLayout.EdgeTo | trie-visualizer/src/components/TrieVisualizer.jsx:192-199 | builds the edge from `parentId` to `curNodeId` with id `${parentId}-${curNodeId}`; it has no contract of its own, and `FlatParents` and `LayoutClosedForm` state which edges a build holds |
| TrieLayout.Pos | trie-visualizer/src/components/TrieVisualizer.jsx:174-177 | builds the position `x = xOffset.x * 50`, `y = depth * 120`; it has no contract of its own, and `LayoutClosedForm` states every node's column and row |
| TrieLayout.NodeRecord | trie-visualizer/src/components/TrieVisualizer.jsx:179-190 | builds the node record: its id, its position, the label, not highlighted, and `isEnd`; it has no contract of its own, and `LayoutClosedForm` states the record of every node |
| TrieLayout.NodeNameInjective | trie-visualizer/src/components/TrieVisualizer.jsx:172 | different counters give different ids `node-k` |
| TrieLayout.Visit | trie-visualizer/src/components/TrieVisualizer.jsx:165-213 | one call of `traverse` advances `nodeId` by the number of nodes below and including `node`, and `xOffset.x` by one less |
| TrieLayout.VisitKids | trie-visualizer/src/components/TrieVisualizer.jsx:205-208 | the first `n` iterations of the child loop advance `nodeId` and `xOffset.x` by the number of nodes in those subtrees |
| TrieLayout.Layout | trie-visualizer/src/components/TrieVisualizer.jsx:160-215 | one build from `nodeId = 0` and `xOffset.x = 0` yields one node per trie node and one edge fewer |
| TrieLayout.VisitLayout | trie-visualizer/src/components/TrieVisualizer.jsx:165-213 | `traverse` appends to the lists exactly the closed-form records of the pre-order listing of its subtree: ids from the counter, columns and rows from index and depth, and the parent edge |
| TrieLayout.VisitKidsLayout | trie-visualizer/src/components/TrieVisualizer.jsx:205-208 | the child loop appends the closed-form records of the children's pre-order listings one after another |
| TrieLayout.LayoutAsFlat | trie-visualizer/src/components/TrieVisualizer.jsx:163-215 | a build is the closed form over the pre-order listing `Flat` of the trie |
| TrieLayout.LayoutClosedForm | trie-visualizer/src/components/TrieVisualizer.jsx:172-200 | node `k` of a build is `node-k` at x = 50 × (k − depth) and y = 120 × depth, labelled `root` or its last character, with the trie node's flag and `highlighted` false; edge `j` runs from the parent's id to `node-(j+1)` with id `parent-child`, and the root has none |
| TrieLayout.LayoutCounters | trie-visualizer/src/components/TrieVisualizer.jsx:163-208 | after a build `nodeId` is the number of trie nodes and `xOffset.x` the number of non-root nodes |
| TrieLayout.FlatParents | trie-visualizer/src/components/TrieVisualizer.jsx:192-206 | the first entry of the pre-order listing is the root; every other entry's parent comes earlier and its path is the parent's path plus one character |
| TrieLayout.FlatPaths | trie-visualizer/src/components/TrieVisualizer.jsx:183-206 | every entry of the pre-order listing is a path of the trie and carries that node's flag |
| TrieLayout.FlatComplete | trie-visualizer/src/components/TrieVisualizer.jsx:202-208 | every path of the trie appears in the pre-order listing |
| TrieLayout.FlatDistinct | trie-visualizer/src/components/TrieVisualizer.jsx:202-208 | no path appears twice in the pre-order listing, so the drawing has one node per trie node |
| GraphSearch.Expected | trie-visualizer/src/components/TrieVisualizer.jsx:136-153 | the reference outcome: found exactly for words, not found exactly for non-paths, otherwise only a prefix |
| GraphSearch.Matches | trie-visualizer/src/components/TrieVisualizer.jsx:119-148 | the three callbacks given to `nodes.find`: label is `root`, id is `curNodeId` (never matched when that is undefined), and id and label are the child's; it has no contract of its own, and `Find` states what the first match is |
| GraphSearch.Find | trie-visualizer/src/components/TrieVisualizer.jsx:118-120 | `nodes.find(q)`: nothing exactly when no node matches, otherwise the first matching position |
| GraphSearch.FindChildWithChar | trie-visualizer/src/components/TrieVisualizer.jsx:114-127 | `false` exactly when no edge leaves `cur` towards a node labelled `c`, otherwise the target of the first such edge |
| GraphSearch.LayoutRoot | trie-visualizer/src/components/TrieVisualizer.jsx:130 | on a build the node labelled `root` is found first at position 0, with id `node-0` |
| GraphSearch.LayoutFindById | trie-visualizer/src/components/TrieVisualizer.jsx:148-149 | on a build looking up `node-k` by id finds node `k`, whose flag says whether its path is a word |
| GraphSearch.LayoutHit | trie-visualizer/src/components/TrieVisualizer.jsx:116-121 | an edge leaves `node-k` towards a node labelled `c` exactly when it enters the node for `k`'s path followed by `c` |
| GraphSearch.FindChildInLayout | trie-visualizer/src/components/TrieVisualizer.jsx:114-127 | on a build the scan from `node-k` with `c` finds a node exactly when the trie has `k`'s path followed by `c`, and it is that path's node |
| GraphSearch.SearchStep | trie-visualizer/src/components/TrieVisualizer.jsx:132-144 | one loop iteration either rules the query out of the trie or moves to the node of the next prefix |
| GraphSearch.Search | trie-visualizer/src/components/TrieVisualizer.jsx:129-154 | on an empty display or one build of `t`, the outcome is what walking `t` says |
| TrieVisualizer.LayoutBuilder.constructor | trie-visualizer/src/components/TrieVisualizer.jsx:160-170 | a build starts with empty lists, `nodeId = 0` and `xOffset.x = 0` |
| TrieVisualizer.LayoutBuilder.Traverse | trie-visualizer/src/components/TrieVisualizer.jsx:165-213 | on a node of a trie whose nodes agree with their abstract trees, the builder's new state is `Visit` of the node's tree from the old state |
| TrieVisualizer.LayoutBuilder.Enter | trie-visualizer/src/components/TrieVisualizer.jsx:172-200 | the node is named after the counter, which moves on, and pushed at the current column and row `depth`, with an edge from its parent when there is one |
| TrieVisualizer.LayoutBuilder.TraverseChildren | trie-visualizer/src/components/TrieVisualizer.jsx:202-208 | the child loop moves the builder's state as `VisitKids` over all children in `Object.entries` order |
| TrieVisualizer.LayoutBuilder.TraverseChild | trie-visualizer/src/components/TrieVisualizer.jsx:205-207 | one iteration traverses the next child one row down with the parent's id, then moves one column right |
| TrieVisualizer.BuildLayout | trie-visualizer/src/components/TrieVisualizer.jsx:160-215 | a build reads the trie without changing it and yields `Layout` of its value, so two builds of an unchanged trie are identical |
| TrieVisualizer.Visualizer.constructor | trie-visualizer/src/components/TrieVisualizer.jsx:9-12 | the component starts with a fresh empty trie and nothing drawn |
| TrieVisualizer.Visualizer.InsertAndBuild | trie-visualizer/src/components/TrieVisualizer.jsx:156-219 | an empty word changes neither the trie nor the lists; otherwise the trie becomes `InsertTree` of the old one with the word added, and the lists are a fresh build of it |
| TrieVisualizer.Visualizer.Redraw | trie-visualizer/src/components/TrieVisualizer.jsx:215-217 | after `setNodes`/`setEdges` the displayed lists are one build of the current trie |
| TrieVisualizer.Visualizer.SearchWord | trie-visualizer/src/components/TrieVisualizer.jsx:129-154 | on the displayed lists the outcome equals walking the trie: found exactly for the inserted words, not found exactly when the query is not a path, otherwise only a prefix |

## Left out

- The React component machinery is not modelled: `useState` and the setters, rendering with ReactFlow (`Background`, `Controls`), the `styles` object, the help modal, and `App.jsx`. The state setters `setNodes`/`setEdges` become assignments to the component's fields. `setWord("")` is left out because the typed word is a parameter of `InsertAndBuild`.
- The presentation fields of the records are not modelled: the node `type` and `style` colours, and the edge `type`. They are constant or derived from `isEnd`, and the model keeps `isEnd`.
- The animation and messages of `searchWord` are not modelled: `highlightNode`, `await`, `alert` and `console.log`. The model returns the decision as an `Outcome`: found, only a prefix, or not found.
- The commented-out centring code after the child loop and the unused `startX` are not modelled, because neither affects the result.
- The search box and its button are commented out in the component. If enabled as written, `onClick={searchWord}` would pass the click event rather than the query. The model takes the query as a parameter.
- `Object.entries` lists integer-like keys before the others. The model fixes `children` as an association list in first-insertion order, which differs only for digit characters.
- `insert` iterates over code points while `searchWord` indexes UTF-16 code units. The model treats all words as sequences of `char`.
- The record field `label` is named `text` in the model, because `label` is a reserved word in Dafny.
- A missing `parentId` (`null`) is modelled as `None`. Every id the walk passes down is a non-empty string, so JavaScript's truthiness test on it is exactly `Some?`.
- A `curNodeId` that is `undefined` is modelled as `None`, and with it the lookups match nothing.
- Concurrency between React's state updates is left out. `SearchWord` reads the lists of the last completed `InsertAndBuild`.
- TrieVisualizer.LayoutBuilder.Traverse: it requires only `Trie.Mirrored()` (each node agrees with its abstract tree), not the full `Trie.Valid()`. `BuildLayout` derives the former from the latter.
- TrieEngine.Trie.Insert: its loop body is split into helper methods (`Walk`, `Advance`, `AddStep`, `FollowStep`, `Finish`). Together they run the same steps in the same order as the source loop.
- TrieVisualizer.LayoutBuilder.Traverse: its prologue (`Enter`), its child loop (`TraverseChildren`) and one loop iteration (`TraverseChild`) are separate methods. Together they run the statements of the source in the same order.
- TrieEngine.Trie.Valid: it does not require every node of `nodes` to be reachable from the root. The nodes reachable from the root form a tree, and detached nodes in the ghost set change nothing that any operation reads or returns.
- JavaScript numbers are modelled as unbounded `nat`s. In `${nodeId}` a number at or above 10^21 would print in exponent notation, and counters past 2^53 would lose precision. A trie of that many nodes is out of reach in practice.
