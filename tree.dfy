/**
 The nodes of the AVL tree (`AVLNode`, backend/index.js) as an immutable
 datatype, the two helpers `height` and `balance`, and the invariants the
 tree keeps: BST ordering, correct cached heights, AVL balance.
 */
module AvlNode {
  import opened KeyOrder

  /** One `{ key, value }` pair as the traversals report it. */
  datatype Entry = Entry(key: string, value: string)

  /** `null` or an `AVLNode` with its cached `height`. */
  datatype Tree =
    | Nil
    | Node(left: Tree, key: string, value: string, right: Tree, height: nat)

  /** `new AVLNode(key, value)`: a leaf of height 1. */
  function NewNode(key: string, value: string): (r: Tree)
    ensures r.Node? && r.left.Nil? && r.right.Nil? && r.height == 1
    ensures r.key == key && r.value == value
    ensures IsAvl(r) && Entries(r) == map[key := value]
  {
    Node(Nil, key, value, Nil, 1)
  }

  function Max(a: int, b: int): (r: int)
  {
    if a > b then a else b
  }

  /** `height(node)`: 0 for no node, at least 1 for a node whose cached heights are up to date. */
  function Height(t: Tree): (r: nat)
    ensures t.Nil? ==> r == 0
    ensures t.Node? && HeightsCorrect(t) ==> r >= 1
    decreases t, 1
  {
    if t.Nil? then 0 else t.height
  }

  /**
   `balance(node)`: left height minus right height. When the node's cached
   height is up to date, its sign names the child that sits one level below it.
   */
  function Balance(t: Tree): (r: int)
    requires t.Node?
    ensures t.height == 1 + Max(Height(t.left), Height(t.right)) ==>
      (r >= 0 ==> Height(t.left) == Height(t) - 1) &&
      (r <= 0 ==> Height(t.right) == Height(t) - 1)
  {
    Height(t.left) - Height(t.right)
  }

  /** `n.height = 1 + Math.max(height(n.left), height(n.right))`. */
  function Fix(n: Tree): (r: Tree)
    requires n.Node?
    ensures r.Node? && r.left == n.left && r.right == n.right
    ensures r.key == n.key && r.value == n.value
    ensures Height(r) > Height(n.left) && Height(r) > Height(n.right)
    ensures HeightsCorrect(n.left) && HeightsCorrect(n.right) ==> HeightsCorrect(r)
  {
    n.(height := 1 + Max(Height(n.left), Height(n.right)))
  }

  /** The length of the longest path from `t` down to a leaf. */
  ghost function Depth(t: Tree): (r: nat)
  {
    if t.Nil? then 0 else 1 + Max(Depth(t.left), Depth(t.right))
  }

  /** Every cached height is one more than the larger child height. */
  ghost predicate HeightsCorrect(t: Tree)
    decreases t, 0
  {
    t.Nil? ||
    (t.height == 1 + Max(Height(t.left), Height(t.right))
     && HeightsCorrect(t.left) && HeightsCorrect(t.right))
  }

  /** At every node the two child heights differ by at most one. */
  ghost predicate Balanced(t: Tree)
  {
    t.Nil? ||
    (-1 <= Balance(t) <= 1 && Balanced(t.left) && Balanced(t.right))
  }

  function Keys(t: Tree): (r: set<string>)
  {
    if t.Nil? then {} else Keys(t.left) + {t.key} + Keys(t.right)
  }

  /** Left keys sort strictly before the node's key, right keys strictly after. */
  ghost predicate Ordered(t: Tree)
  {
    t.Nil? ||
    ((forall x | x in Keys(t.left) :: Less(x, t.key))
     && (forall x | x in Keys(t.right) :: Less(t.key, x))
     && Ordered(t.left) && Ordered(t.right))
  }

  /** The invariant an `AVLTree`'s root keeps between public operations. */
  ghost predicate IsAvl(t: Tree)
  {
    Ordered(t) && HeightsCorrect(t) && Balanced(t)
  }

  /** The dictionary a tree stands for: each stored key with its value. */
  function Entries(t: Tree): (m: map<string, string>)
    ensures m.Keys == Keys(t)
  {
    if t.Nil? then map[]
    else (Entries(t.left) + Entries(t.right))[t.key := t.value]
  }

  /** The number of nodes. */
  function Size(t: Tree): (r: nat)
  {
    if t.Nil? then 0 else Size(t.left) + 1 + Size(t.right)
  }

  /** Left subtree, node, right subtree: one entry per node. */
  function InOrder(t: Tree): (r: seq<Entry>)
    ensures |r| == Size(t)
  {
    if t.Nil? then [] else InOrder(t.left) + [Entry(t.key, t.value)] + InOrder(t.right)
  }

  /** The cached height the tree keeps is the real height. */
  lemma {:induction false} CachedHeightIsDepth(t: Tree)
    requires HeightsCorrect(t)
    ensures Height(t) == Depth(t)
  {
    if t.Node? {
      CachedHeightIsDepth(t.left);
      CachedHeightIsDepth(t.right);
    }
  }

  /** In an ordered tree no two nodes share a key, so nodes and keys are as many. */
  lemma {:induction false} SizeIsKeyCount(t: Tree)
    requires Ordered(t)
    ensures Size(t) == |Keys(t)|
  {
    if t.Node? {
      SizeIsKeyCount(t.left);
      SizeIsKeyCount(t.right);
      KeysApart(t);
      assert Keys(t.left) !! Keys(t.right);
      assert |Keys(t.left) + Keys(t.right)| == |Keys(t.left)| + |Keys(t.right)|;
    }
  }

  /** In an ordered node the key is in neither subtree and the subtrees share no key. */
  lemma KeysApart(t: Tree)
    requires t.Node? && Ordered(t)
    ensures t.key !in Keys(t.left) && t.key !in Keys(t.right)
    ensures Keys(t.left) !! Keys(t.right)
  {
    if t.key in Keys(t.left) {
      LessIrreflexive(t.key);
    }
    if t.key in Keys(t.right) {
      LessIrreflexive(t.key);
    }
    forall x | x in Keys(t.left) && x in Keys(t.right)
      ensures false
    {
      LessTransitive(x, t.key, x);
      LessIrreflexive(x);
    }
  }
}
