# AVL dictionary

A model of the dictionary behind the word-lookup server in `backend/index.js`.
It covers the `AVLNode`/`AVLTree` classes (lines 8-152) and the `getTreeStructure`
snapshot (lines 178-186). The tree is a self-balancing binary search tree. It
maps string keys to string values (a word to its meaning) and offers these
operations:

- `insertPair`: insert a key, or overwrite the value of a key already present.
- `deleteKey`: delete a key.
- `inorder`: list all entries in key order.
- `searchPrefix`: the autocomplete walk for a prefix.

Keys are ordered by JavaScript's `<` on strings.

The model is organised as follows.

- **`KeyOrder`** (`keyorder.dfy`)
  - `Less` is the lexicographic order on `seq<char>`: a proper prefix sorts first.
  - `StartsWith` is `startsWith`.
  - JavaScript's `p <= k` is read as `!Less(k, p)`, and `p >= k` as `!Less(p, k)`.
  - Lemmas prove that the order is a strict total order.
- **`AvlNode`** (`tree.dfy`)
  - A node is an immutable datatype `Node(left, key, value, right, height)`. `Nil` plays the part of `null`.
  - It defines `height`, `balance` and the height update `Fix`.
  - It defines the three invariants the code relies on: BST order (`Ordered`), correct cached heights (`HeightsCorrect`) and AVL balance (`Balanced`). `IsAvl` is all three.
  - It defines the abstractions `Entries` (the map a tree stands for), `Keys`, `Size` and `InOrder`.
- **`Rotations`** (`rotations.dfy`)
  - `rotateLeft` and `rotateRight`.
  - A lemma per rebalancing case shows that the rotation turns a node that is two out of balance into a valid AVL subtree.
- **`AvlInsert`** (`insert.dfy`)
  - `insert`, with its four rotation cases tried in the code's order.
  - `Insert` is proved to keep `IsAvl`.
  - It turns the entry map `m` into `m[key := value]`.
  - It grows the height by at most one.
- **`AvlDelete`** (`delete.dfy`)
  - `delete`, with its two-child case.
  - The `while (temp.left)` successor loop is a method, `Successor`. It is proved to find `MinEntry` of the right subtree.
  - The four delete rotation cases use the code's tie-breaks on the child balance: `>= 0` and `< 0` on the left, `<= 0` and `> 0` on the right.
  - `Delete` keeps `IsAvl`, removes exactly the key, and lowers the height by at most one.
- **`Traversals`** (`traversals.dfy`)
  - `inorder`, and `Completions`, the sequence `autocomplete` pushes.
  - Soundness of `searchPrefix`, plus counterexamples to completeness and to sorted output.
- **`TreeStructure`** (`structure.dfy`)
  - `getTreeStructure` and its reconstruction, which round-trip.
- **`Dictionary`** (`avltree.dfy`)
  - The `AVLTree` object: a class with a mutable `root`, `Valid()` as its invariant, and the public methods.
  - `autocomplete` and `inorder` are recursive methods that extend the result list they are given.
- **`Scenarios`** (`scenarios.dfy`)
  - Worked scenarios, proved for any keys in the given order, then stated for literal keys.
  - Five keys inserted in ascending order give a tree of height 3.
  - `searchPrefix("")` on that tree reports 2 of the 5 entries.
  - Deleting a two-child root promotes its successor.

`searchPrefix` is modelled exactly as the code is written. The walk pushes a
node before descending, so results come out in pre-order, not in key order.
The walk descends right only when `prefix >= node.key`, so it skips right
subtrees that hold matches. With the empty prefix it visits only the left
spine when no key is empty. A description of the program could lead one to expect a complete,
sorted result, and `"" → every entry` in particular. The code does not
provide either, and this model follows the code. What is proved about
`searchPrefix` is soundness, and the overreaching claims are refuted by
lemmas (`PrefixWalkMissesRightMatch`,
`PrefixWalkIsPreOrder`, `EmptyPrefixWalksLeftSpine`,
`Scenarios.EmptyPrefixOnLetters`).

## Model

| member | source | states |
|---|---|---|
| KeyOrder.Less | backend/index.js:52-53 | JavaScript `<` on keys: a proper prefix sorts before every extension of it. |
| KeyOrder.StartsWith | backend/index.js:84 | A key that starts with the prefix is the prefix followed by the rest of the key. The empty prefix matches every key. |
| KeyOrder.LessIrreflexive | backend/index.js:52-53 | No key sorts before itself. |
| KeyOrder.LessAsymmetric | backend/index.js:52-53 | `a < b` excludes `b < a`, so at most one of insert's two comparisons holds. |
| KeyOrder.LessTransitive | backend/index.js:52-53 | The string order is transitive, which the BST invariant relies on. |
| KeyOrder.LessTotal | backend/index.js:52-54 | Two different keys are ordered one way or the other. |
| KeyOrder.NeitherLessIsEqual | backend/index.js:54-57 | When neither `key < node.key` nor `key > node.key` holds, the keys are equal, so the `else` branch is the equal-key case. |
| KeyOrder.PrefixNotAfter | backend/index.js:84-86 | A key that starts with the prefix never sorts before it, so `prefix <= node.key` holds for every match. |
| AvlNode.NewNode | backend/index.js:8-16 | A new node is a leaf of height 1, without children, holding the given key and value. It is a valid AVL tree whose entry map is the single pair. |
| AvlNode.Height | backend/index.js:23-25 | `height(null)` is 0. A node whose cached heights are correct has height at least 1. |
| AvlNode.Balance | backend/index.js:27-29 | When the node's cached height is correct, a non-negative balance means the left child is one level below the node, and a non-positive one means the right child is. |
| AvlNode.Fix | backend/index.js:59-60 | The height update keeps the node's links, key and value, and leaves it taller than both children. When both children have correct heights, so does the updated node. |
| AvlNode.InOrder | backend/index.js:96-102 | The in-order listing has one entry per node. |
| AvlNode.CachedHeightIsDepth | backend/index.js:23-25 | On a tree with correct heights, `height(node)` is the real depth of the subtree. |
| AvlNode.SizeIsKeyCount | backend/index.js:52-57 | In an ordered tree no key is stored twice, so the node count is the number of distinct keys. |
| Rotations.RotateLeft | backend/index.js:31-38 | `x.right` comes up and `x` goes down as its left child. The three subtrees are reused. The in-order entry sequence, the key set and (on an ordered node) the ordering and entry map are kept. The two moved nodes get correct heights. |
| Rotations.RotateRight | backend/index.js:40-47 | The mirror image of `RotateLeft`: `y.left` comes up, with the same preservation properties. |
| Rotations.SingleRightBalanced | backend/index.js:64 | A node two too heavy on the left, whose left child leans left, becomes a valid AVL subtree one level lower after `rotateRight`, with the same entries. |
| Rotations.SingleLeftBalanced | backend/index.js:65 | The mirror case: `rotateLeft` on a right-right imbalance. |
| Rotations.DoubleRightBalanced | backend/index.js:66-69 | The left-right case: `rotateLeft` on the left child, then `rotateRight`, gives a valid AVL subtree one level lower with the same entries. |
| Rotations.DoubleLeftBalanced | backend/index.js:70-73 | The right-left case, mirrored. |
| Rotations.SingleRightLevel | backend/index.js:132 | For deletion: with a level left child (balance 0), `rotateRight` gives a valid AVL subtree of the same height. |
| Rotations.SingleLeftLevel | backend/index.js:138 | The mirror case for a level right child. |
| AvlInsert.Insert | backend/index.js:49-76 | On a valid AVL tree, `insert` returns a valid AVL tree whose entry map is the old one with `key := value`. It is taller by 0 or 1. When it is taller, its root leans towards the side the key went to. |
| AvlInsert.InsertedLeft | backend/index.js:52-75 | After insertion into the left subtree, the height update and rotation cases yield a valid AVL subtree with the updated entries, taller by at most one. |
| AvlInsert.InsertedRight | backend/index.js:53-75 | The same after insertion into the right subtree. |
| AvlInsert.InsertFix | backend/index.js:62-75 | Whichever of the four rotation cases applies, the in-order entry sequence and the key set are unchanged, an ordered node stays ordered with the same entry map, and a node in balance is returned as it is. |
| AvlInsert.InsertFixCorrect | backend/index.js:62-75 | The four rotation cases, chosen by comparing the key with the heavy child's key, repair any node that an insertion unbalanced by two. A node in balance is returned untouched. A repaired node is one level lower. |
| AvlInsert.InsertExistingKeepsShape | backend/index.js:52-57 | Inserting a key already present changes no link, key or height. Only the stored value changes. |
| AvlInsert.InsertKeys | backend/index.js:49-57 | After insertion the key set is the old set plus the key. |
| AvlInsert.InsertSize | backend/index.js:49-53 | A fresh key adds exactly one node. An existing key adds none. |
| AvlDelete.MinEntry | backend/index.js:116-117 | The leftmost node, where the successor loop stops, is the first entry of the in-order listing. |
| AvlDelete.MinEntryIsLeast | backend/index.js:116-117 | The node the successor loop stops at holds the least key of the subtree, stored with that value. |
| AvlDelete.Successor | backend/index.js:116-117 | The `while (temp.left)` loop returns the leftmost entry of the right subtree, `MinEntry`. |
| AvlDelete.Delete | backend/index.js:104-145 | On a valid AVL tree, `delete` returns a valid AVL tree whose entry map is the old one minus `key`. Every other key keeps its value. The tree is lower by 0 or 1. |
| AvlDelete.DeletedLeft | backend/index.js:107-144 | After deletion from the left subtree, rebalancing yields a valid AVL subtree without the key. |
| AvlDelete.DeletedRight | backend/index.js:109-144 | The same for the right subtree. |
| AvlDelete.RemovedNode | backend/index.js:113-114 | A node with at most one child is replaced by that child. The child holds every entry but the node's own and is one level lower. Rebalancing leaves it as it is. |
| AvlDelete.DeletedSuccessor | backend/index.js:115-121 | In the two-child case, the node takes its successor's key and value, and the successor is deleted from the right subtree. The result is a valid AVL subtree holding the old entries minus the deleted key. |
| AvlDelete.DeleteFix | backend/index.js:130-144 | Whichever of the four delete rotation cases applies, the in-order entry sequence and the key set are unchanged, an ordered node stays ordered with the same entry map, and a node in balance is returned as it is. |
| AvlDelete.DeleteFixAlwaysApplies | backend/index.js:130-144 | At every node, each rotation the delete cases choose finds the child it rotates: a child with positive height is never `null`. |
| AvlDelete.DeleteFixCorrect | backend/index.js:130-144 | The four delete rotation cases, with their `>= 0`/`< 0` and `<= 0`/`> 0` tie-breaks, repair any node off by at most two without raising it. |
| AvlDelete.DeleteAbsentUnchanged | backend/index.js:104-110 | Deleting a key the tree does not hold returns the identical tree. |
| AvlDelete.DeleteSize | backend/index.js:104-124 | Deletion removes exactly one node when the key is stored and none otherwise. |
| Traversals.InOrderEntries | backend/index.js:96-102 | `inorder` lists as many entries as there are nodes. Every listed entry is stored with that value, and every stored entry is listed. |
| Traversals.InOrderAscending | backend/index.js:96-102 | `inorder` lists the keys of an ordered tree in strictly ascending order, so each key appears once. |
| Traversals.Completions | backend/index.js:82-88 | The walk reports at most one entry per node, and only entries whose key starts with the prefix. |
| Traversals.CompletionsFromTree | backend/index.js:82-88 | Every entry the prefix walk reports is a node of the tree whose key starts with the prefix. |
| Traversals.CompletionsSound | backend/index.js:82-94 | On an ordered tree, each entry `searchPrefix` reports starts with the prefix and is stored with that value, and no key is reported twice. |
| Traversals.CompletionsDistinct | backend/index.js:82-88 | The prefix walk on an ordered tree never reports a key twice. |
| Traversals.EmptyPrefixWalksLeftSpine | backend/index.js:86-87 | With the empty prefix, and no empty key in the tree, the walk reports exactly the left spine. |
| Traversals.PrefixWalkMissesRightMatch | backend/index.js:87 | Counterexample to completeness: for node `"abc"` with right child `"abd"`, prefix `"ab"` reports only `"abc"`. |
| Traversals.PrefixWalkIsPreOrder | backend/index.js:84-86 | Counterexample to sorted output: a node is reported before the matches in its left subtree. |
| TreeStructure.GetTreeStructure | backend/index.js:178-186 | The snapshot is `null` exactly for the empty tree. It keeps keys, values and links: on a tree with correct heights, rebuilding from it gives back the same tree. |
| TreeStructure.RebuildRoundTrip | backend/index.js:178-186 | Every snapshot shape is the snapshot of the tree rebuilt from it. |
| Dictionary.AVLTree.constructor | backend/index.js:19-21 | A new dictionary has no root and no entries, and satisfies the invariant. |
| Dictionary.AVLTree.InsertPair | backend/index.js:78-80 | `insertPair` keeps the invariant and replaces the root by `insert`'s result. The entry map becomes the old one with `key := value`. |
| Dictionary.AVLTree.DeleteKey | backend/index.js:147-149 | `deleteKey` keeps the invariant and removes exactly the key from the entry map. An absent key leaves the root as it was. |
| Dictionary.AVLTree.Autocomplete | backend/index.js:82-88 | `autocomplete(node, prefix, result)` appends to `result` exactly the walk's pre-order matches. |
| Dictionary.AVLTree.SearchPrefix | backend/index.js:90-94 | `searchPrefix` returns the walk from the root. Every reported entry starts with the prefix and is stored with that value, and no key is reported twice. |
| Dictionary.AVLTree.Inorder | backend/index.js:96-102 | `inorder(node, result)` appends the subtree's entries to `result`, left to right. |
| Scenarios.MiddleFirstSorted | backend/index.js:49-57 | Keys `b`, `a`, `c` (with `a < b < c`) inserted in that order, each with its own value, give the balanced tree `a b c` without a rotation. Its in-order listing is `a, b, c`, each key with the value inserted for it. |
| Scenarios.AscendingInsertsStayBalanced | backend/index.js:49-76 | Five ascending keys give a tree of height 3 rather than a chain, through two left rotations. |
| Scenarios.EmptyPrefixAfterAscending | backend/index.js:86-87 | `searchPrefix("")` on that tree reports two of the five entries. |
| Scenarios.InsertThreeDeleteRoot | backend/index.js:113-121 | Deleting the two-child root of `m(b, x)` gives the tree `x(b, null)`: the successor `x` is promoted to the root, and `b, x` remain in order. |
| Scenarios.ThreeFruitSorted | backend/index.js:96-102 | `banana`, `apple`, `cherry` inserted in that order, with distinct meanings, come back sorted from `inorder`, each with its own meaning. |
| Scenarios.EmptyPrefixOnLetters | backend/index.js:86-94 | After inserting `"a"` to `"e"` in order, `searchPrefix("")` returns `b` and `a` only, the root and its left child. |

## Left out

- The HTTP server, routing, CORS and JSON handling (`backend/index.js:188` onwards), `addMeaning` with its network fetch, and the startup population loop. These are I/O and asynchronous glue. Only the `insertPair` calls they make matter, and those are modelled.
- The global singleton `avl` (`backend/index.js:154`). The model uses explicit `AVLTree` instances instead.
- `frontend-/script.js` (DOM, `fetch`, canvas layout and drawing) is not part of this model.
- Key order: `Less` compares Dafny `char`s, which are Unicode scalar values. JavaScript compares UTF-16 code units. The two orders differ for characters outside the Basic Multilingual Plane. Strings holding an unpaired surrogate, such as `"\ud800"`, are valid JavaScript keys but have no `string` counterpart here.
- In-place mutation and node identity. Nodes are immutable values here, and each operation returns the new subtree root, as the JS code threads roots back through return values. Aliasing between nodes is not modelled: the code creates none, but this model doesn't show that.
- AvlInsert.Insert: requires a valid AVL tree (`IsAvl`). The postconditions (balance, entry map, height bound) hold only on valid AVL trees, and the model shows each rotation finding the child it rotates only for nodes built from valid subtrees (`InsertFixCorrect`). The only caller, `insertPair` (`backend/index.js:79`), passes the root, which the class invariant keeps valid.
- AvlDelete.Delete: requires a valid AVL tree (`IsAvl`). The JavaScript delete never dereferences a missing child on any tree (`DeleteFixAlwaysApplies`), but the postconditions (balance, entry map, height bound) hold only on valid AVL trees. The only caller, `deleteKey` (`backend/index.js:148`), passes the root, which the class invariant keeps valid.
- Dictionary.AVLTree.SearchPrefix: states soundness only (matches, stored values, no duplicates), not completeness or ascending order. The code provides neither, as the counterexample lemmas show.
- A logarithmic bound on the height. The code neither states nor relies on one, so only the AVL balance invariant is proved.
