/**
 `insert` (backend/index.js:49-76): recursive insertion that overwrites the
 value of an existing key, recomputes the heights on the way back up and
 repairs the lowest node that lost its balance with one of four rotation
 cases, chosen by comparing the new key with the heavy child's key.
 */
module AvlInsert {
  import opened KeyOrder
  import opened AvlNode
  import opened Rotations

  /**
   An insertion of `key` made this subtree one taller: its root leans by one
   towards the side the key went to.
   */
  ghost predicate Grew(t: Tree, key: string)
  {
    t.Node? &&
    ((Balance(t) == 1 && Less(key, t.key)) || (Balance(t) == -1 && Less(t.key, key)))
  }

  /** No rotation `InsertFix` picks needs a child that is missing. */
  predicate InsertFixable(n: Tree, key: string)
  {
    n.Node?
    && (Balance(n) > 1 ==>
          n.left.Node? && (!Less(key, n.left.key) && Less(n.left.key, key) ==> n.left.right.Node?))
    && (Balance(n) < -1 ==>
          n.right.Node? && (!Less(n.right.key, key) && Less(key, n.right.key) ==> n.right.left.Node?))
  }

  /**
   The four rotation cases of `insert` (backend/index.js:62-75), in the order
   the code tries them. Whichever applies, the entries stay in the same
   in-order sequence, so an ordered node stays ordered and keeps its
   dictionary; a balanced node is left alone.
   */
  function InsertFix(n: Tree, key: string): (r: Tree)
    requires InsertFixable(n, key)
    ensures InOrder(r) == InOrder(n) && Keys(r) == Keys(n)
    ensures Ordered(n) ==> Ordered(r) && Entries(r) == Entries(n)
    ensures -1 <= Balance(n) <= 1 ==> r == n
  {
    var b := Balance(n);
    if b > 1 && Less(key, n.left.key) then RotateRight(n)
    else if b < -1 && Less(n.right.key, key) then RotateLeft(n)
    else if b > 1 && Less(n.left.key, key) then
      LeftChildRotated(n, RotateLeft(n.left));
      RotateRight(n.(left := RotateLeft(n.left)))
    else if b < -1 && Less(key, n.right.key) then
      RightChildRotated(n, RotateRight(n.right));
      RotateLeft(n.(right := RotateRight(n.right)))
    else n
  }

  /**
   `insert(node, key, value)` on a valid AVL subtree: the result is a valid
   AVL subtree holding the old entries with `key := value`, at most one
   level taller, and when it is taller it leans towards the new key.
   */
  function Insert(t: Tree, key: string, value: string): (r: Tree)
    requires IsAvl(t)
    ensures IsAvl(r)
    ensures Entries(r) == Entries(t)[key := value]
    ensures Height(t) <= Height(r) <= Height(t) + 1
    ensures Height(r) == Height(t) + 1 ==> t.Nil? || Grew(r, key)
    decreases t
  {
    if t.Nil? then NewNode(key, value)
    else if Less(key, t.key) then
      var l := Insert(t.left, key, value);
      InsertedLeft(t, key, value, l);
      InsertFix(Fix(t.(left := l)), key)
    else if Less(t.key, key) then
      var r := Insert(t.right, key, value);
      InsertedRight(t, key, value, r);
      InsertFix(Fix(t.(right := r)), key)
    else
      NeitherLessIsEqual(key, t.key);
      t.(value := value)
  }

  /** The step after a recursive insertion into the left subtree returned `l`. */
  lemma InsertedLeft(t: Tree, key: string, value: string, l: Tree)
    requires t.Node? && IsAvl(t) && Less(key, t.key)
    requires IsAvl(l) && Entries(l) == Entries(t.left)[key := value]
    requires Height(t.left) <= Height(l) <= Height(t.left) + 1
    requires Height(l) == Height(t.left) + 1 ==> t.left.Nil? || Grew(l, key)
    ensures InsertFixable(Fix(t.(left := l)), key)
    ensures var r := InsertFix(Fix(t.(left := l)), key);
      IsAvl(r) && Entries(r) == Entries(t)[key := value]
      && Height(t) <= Height(r) <= Height(t) + 1
      && (Height(r) == Height(t) + 1 ==> Grew(r, key))
  {
    var n := Fix(t.(left := l));
    InsertedLeftEntries(t, key, value, n);
    assert HeightsCorrect(t.left) && Balanced(t);
    InsertFixCorrect(n, key);
  }

  /** The step after a recursive insertion into the right subtree returned `r`. */
  lemma InsertedRight(t: Tree, key: string, value: string, r: Tree)
    requires t.Node? && IsAvl(t) && Less(t.key, key)
    requires IsAvl(r) && Entries(r) == Entries(t.right)[key := value]
    requires Height(t.right) <= Height(r) <= Height(t.right) + 1
    requires Height(r) == Height(t.right) + 1 ==> t.right.Nil? || Grew(r, key)
    ensures InsertFixable(Fix(t.(right := r)), key)
    ensures var r' := InsertFix(Fix(t.(right := r)), key);
      IsAvl(r') && Entries(r') == Entries(t)[key := value]
      && Height(t) <= Height(r') <= Height(t) + 1
      && (Height(r') == Height(t) + 1 ==> Grew(r', key))
  {
    var n := Fix(t.(right := r));
    InsertedRightEntries(t, key, value, n);
    assert HeightsCorrect(t.right) && Balanced(t);
    InsertFixCorrect(n, key);
  }

  lemma InsertedLeftEntries(t: Tree, key: string, value: string, n: Tree)
    requires t.Node? && Ordered(t) && Less(key, t.key)
    requires n.Node? && n.key == t.key && n.value == t.value && n.right == t.right
    requires Ordered(n.left) && Entries(n.left) == Entries(t.left)[key := value]
    ensures Ordered(n) && Entries(n) == Entries(t)[key := value]
  {
    forall x | x in Keys(t.right)
      ensures x != key
    {
      LessTransitive(key, t.key, x);
      LessIrreflexive(key);
    }
    LessIrreflexive(key);
    assert Keys(n.left) == Keys(t.left) + {key};
    assert Ordered(n);
    UpdateMovesOut(Entries(t.left), Entries(t.right), key, value, t.key, t.value, true);
  }

  lemma InsertedRightEntries(t: Tree, key: string, value: string, n: Tree)
    requires t.Node? && Ordered(t) && Less(t.key, key)
    requires n.Node? && n.key == t.key && n.value == t.value && n.left == t.left
    requires Ordered(n.right) && Entries(n.right) == Entries(t.right)[key := value]
    ensures Ordered(n) && Entries(n) == Entries(t)[key := value]
  {
    LessIrreflexive(key);
    assert Keys(n.right) == Keys(t.right) + {key};
    assert Ordered(n);
    UpdateMovesOut(Entries(t.left), Entries(t.right), key, value, t.key, t.value, false);
  }

  /** Updating one side of a node's entry map updates the node's map, when the key is not the node's. */
  lemma UpdateMovesOut(el: map<string, string>, er: map<string, string>, key: string, value: string,
                       nk: string, nv: string, inLeft: bool)
    requires key != nk
    requires inLeft ==> key !in er
    ensures inLeft ==> (el[key := value] + er)[nk := nv] == ((el + er)[nk := nv])[key := value]
    ensures !inLeft ==> (el + er[key := value])[nk := nv] == ((el + er)[nk := nv])[key := value]
  {
  }

  /**
   The rotation cases of `insert` repair a node whose children are valid AVL
   subtrees and whose balance is off by two on the side an insertion grew,
   and they bring the node back to its height from before the insertion.
   */
  lemma InsertFixCorrect(n: Tree, key: string)
    requires n.Node? && n.height == 1 + Max(Height(n.left), Height(n.right))
    requires IsAvl(n.left) && IsAvl(n.right) && Ordered(n)
    requires -2 <= Balance(n) <= 2
    requires Balance(n) == 2 ==> Grew(n.left, key)
    requires Balance(n) == -2 ==> Grew(n.right, key)
    ensures InsertFixable(n, key)
    ensures IsAvl(InsertFix(n, key)) && Entries(InsertFix(n, key)) == Entries(n)
    ensures -1 <= Balance(n) <= 1 ==> InsertFix(n, key) == n
    ensures Balance(n) == 2 || Balance(n) == -2 ==> Height(InsertFix(n, key)) == Height(n) - 1
  {
    var b := Balance(n);
    if b == 2 {
      var l := n.left;
      assert HeightsCorrect(l) && Balanced(l);
      if Balance(l) == 1 {
        SingleRightBalanced(n);
      } else {
        LessAsymmetric(l.key, key);
        DoubleRightBalanced(n);
      }
    } else if b == -2 {
      var r := n.right;
      assert HeightsCorrect(r) && Balanced(r);
      if Balance(r) == -1 {
        SingleLeftBalanced(n);
      } else {
        LessAsymmetric(key, r.key);
        DoubleLeftBalanced(n);
      }
    }
  }

  /** Same links, keys and cached heights; only the values may differ. */
  ghost predicate SameShape(a: Tree, b: Tree)
  {
    (a.Nil? && b.Nil?) ||
    (a.Node? && b.Node? && a.key == b.key && a.height == b.height
     && SameShape(a.left, b.left) && SameShape(a.right, b.right))
  }

  /**
   Inserting a key the tree already holds overwrites that node's value and
   nothing else: no node is added, moved or given a new height.
   */
  lemma {:induction false} InsertExistingKeepsShape(t: Tree, key: string, value: string)
    requires IsAvl(t) && key in Keys(t)
    ensures SameShape(Insert(t, key, value), t)
    decreases t
  {
    assert t.Node? && HeightsCorrect(t) && Balanced(t);
    LessIrreflexive(key);
    if Less(key, t.key) {
      LessAsymmetric(key, t.key);
      assert key in Keys(t.left);
      var l := Insert(t.left, key, value);
      InsertExistingKeepsShape(t.left, key, value);
      SameShapeHeight(l, t.left);
      var n := Fix(t.(left := l));
      assert n.height == t.height && Balance(n) == Balance(t);
      assert InsertFix(n, key) == n;
      SameShapeReflexive(t.right);
    } else if Less(t.key, key) {
      LessAsymmetric(t.key, key);
      assert key in Keys(t.right);
      var r := Insert(t.right, key, value);
      InsertExistingKeepsShape(t.right, key, value);
      SameShapeHeight(r, t.right);
      var n := Fix(t.(right := r));
      assert n.height == t.height && Balance(n) == Balance(t);
      assert InsertFix(n, key) == n;
      SameShapeReflexive(t.left);
    } else {
      SameShapeReflexive(t.left);
      SameShapeReflexive(t.right);
    }
  }

  lemma SameShapeHeight(a: Tree, b: Tree)
    requires SameShape(a, b)
    ensures Height(a) == Height(b)
  {
  }

  lemma {:induction false} SameShapeReflexive(a: Tree)
    ensures SameShape(a, a)
    decreases a
  {
    if a.Node? {
      SameShapeReflexive(a.left);
      SameShapeReflexive(a.right);
    }
  }

  /** An insertion adds exactly one node for a fresh key and none for a stored one. */
  lemma InsertSize(t: Tree, key: string, value: string)
    requires IsAvl(t)
    ensures Size(Insert(t, key, value)) == Size(t) + (if key in Keys(t) then 0 else 1)
  {
    var r := Insert(t, key, value);
    SizeIsKeyCount(t);
    SizeIsKeyCount(r);
    InsertKeys(t, key, value);
    if key in Keys(t) {
      assert Keys(t) + {key} == Keys(t);
    }
  }

  /** An insertion adds its key to the key set and no other. */
  lemma InsertKeys(t: Tree, key: string, value: string)
    requires IsAvl(t)
    ensures Keys(Insert(t, key, value)) == Keys(t) + {key}
  {
    assert Entries(Insert(t, key, value)).Keys == Entries(t).Keys + {key};
  }
}
