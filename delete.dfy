/**
 `delete` (backend/index.js:104-145): recursive deletion. A node with at
 most one child is replaced by that child; a node with two children takes
 the key and value of the minimum of its right subtree, which is then
 deleted from that subtree. On the way back up every node has its height
 recomputed and is repaired with the deletion rotation cases, which choose
 by the heavy child's own balance.
 */
module AvlDelete {
  import opened KeyOrder
  import opened AvlNode
  import opened Rotations

  /**
   The leftmost node: where `while (temp.left) temp = temp.left` stops. It is
   the first entry of the in-order sequence.
   */
  function MinEntry(t: Tree): (r: Entry)
    requires t.Node?
    ensures r == InOrder(t)[0]
    decreases t
  {
    if t.left.Nil? then Entry(t.key, t.value) else MinEntry(t.left)
  }

  /** In an ordered tree the leftmost node holds the least key, stored with its value. */
  lemma {:induction false} MinEntryIsLeast(t: Tree)
    requires t.Node? && Ordered(t)
    ensures MinEntry(t).key in Entries(t) && Entries(t)[MinEntry(t).key] == MinEntry(t).value
    ensures forall x | x in Keys(t) :: x == MinEntry(t).key || Less(MinEntry(t).key, x)
    decreases t
  {
    KeysApart(t);
    if t.left.Node? {
      var m := MinEntry(t.left);
      MinEntryIsLeast(t.left);
      forall x | x in Keys(t)
        ensures x == m.key || Less(m.key, x)
      {
        if x == t.key {
        } else if x in Keys(t.right) {
          LessTransitive(m.key, t.key, x);
        }
      }
    } else {
      forall x | x in Keys(t) && x != t.key
        ensures Less(t.key, x)
      {
      }
    }
  }

  /** The successor search of the two-child case, `let temp = node.right; while (temp.left) ...`. */
  method Successor(right: Tree) returns (e: Entry)
    requires right.Node?
    ensures e == MinEntry(right)
  {
    var temp := right;
    while temp.left.Node?
      invariant temp.Node?
      invariant MinEntry(temp) == MinEntry(right)
      decreases temp
    {
      temp := temp.left;
    }
    e := Entry(temp.key, temp.value);
  }

  /**
   No rotation `DeleteFix` picks needs a child that is missing; by
   `DeleteFixAlwaysApplies` this holds at every node, as in the source, where
   a child with a positive height is never `null`.
   */
  predicate DeleteFixable(n: Tree)
  {
    n.Node?
    && (Balance(n) > 1 ==> n.left.Node? && (Balance(n.left) < 0 ==> n.left.right.Node?))
    && (Balance(n) < -1 ==> n.right.Node? && (Balance(n.right) > 0 ==> n.right.left.Node?))
  }

  /** Every node is `DeleteFixable`: a child taller than its sibling is never `null`. */
  lemma DeleteFixAlwaysApplies(n: Tree)
    requires n.Node?
    ensures DeleteFixable(n)
  {
  }

  /**
   The four rotation cases of `delete` (backend/index.js:130-144), in the
   order the code tries them. Whichever applies, the entries stay in the same
   in-order sequence, so an ordered node stays ordered and keeps its
   dictionary; a balanced node is left alone.
   */
  function DeleteFix(n: Tree): (r: Tree)
    requires DeleteFixable(n)
    ensures InOrder(r) == InOrder(n) && Keys(r) == Keys(n)
    ensures Ordered(n) ==> Ordered(r) && Entries(r) == Entries(n)
    ensures -1 <= Balance(n) <= 1 ==> r == n
  {
    var b := Balance(n);
    if b > 1 && Balance(n.left) >= 0 then RotateRight(n)
    else if b > 1 && Balance(n.left) < 0 then
      LeftChildRotated(n, RotateLeft(n.left));
      RotateRight(n.(left := RotateLeft(n.left)))
    else if b < -1 && Balance(n.right) <= 0 then RotateLeft(n)
    else if b < -1 && Balance(n.right) > 0 then
      RightChildRotated(n, RotateRight(n.right));
      RotateLeft(n.(right := RotateRight(n.right)))
    else n
  }

  /**
   `delete(node, key)` on a valid AVL subtree: the result is a valid AVL
   subtree holding the old entries without `key`, at most one level lower.
   */
  function Delete(t: Tree, key: string): (r: Tree)
    requires IsAvl(t)
    ensures IsAvl(r)
    ensures Entries(r) == Entries(t) - {key}
    ensures Height(t) - 1 <= Height(r) <= Height(t)
    decreases t
  {
    if t.Nil? then Nil
    else if Less(key, t.key) then
      var l := Delete(t.left, key);
      var n := Fix(t.(left := l));
      DeletedLeft(t, key, n);
      DeleteFix(n)
    else if Less(t.key, key) then
      var r := Delete(t.right, key);
      var n := Fix(t.(right := r));
      DeletedRight(t, key, n);
      DeleteFix(n)
    else if t.left.Nil? || t.right.Nil? then
      NeitherLessIsEqual(key, t.key);
      var c := if t.left.Node? then t.left else t.right;
      RemovedNode(t);
      if c.Nil? then Nil else DeleteFix(Fix(c))
    else
      NeitherLessIsEqual(key, t.key);
      var m := MinEntry(t.right);
      var r := Delete(t.right, m.key);
      var n := Fix(t.(key := m.key, value := m.value, right := r));
      DeletedSuccessor(t, n);
      DeleteFix(n)
  }

  /** The step after a recursive deletion from the left subtree. */
  lemma DeletedLeft(t: Tree, key: string, n: Tree)
    requires t.Node? && IsAvl(t) && Less(key, t.key)
    requires n.Node? && n.key == t.key && n.value == t.value && n.right == t.right
    requires n.height == 1 + Max(Height(n.left), Height(t.right))
    requires IsAvl(n.left) && Entries(n.left) == Entries(t.left) - {key}
    requires Height(t.left) - 1 <= Height(n.left) <= Height(t.left)
    ensures DeleteFixable(n)
    ensures IsAvl(DeleteFix(n)) && Entries(DeleteFix(n)) == Entries(t) - {key}
    ensures Height(t) - 1 <= Height(DeleteFix(n)) <= Height(t)
  {
    forall x | x in Keys(t.right)
      ensures x != key
    {
      LessTransitive(key, t.key, x);
      LessIrreflexive(key);
    }
    LessIrreflexive(key);
    assert Ordered(n);
    RemoveMovesOut(Entries(t.left), Entries(t.right), key, t.key, t.value, true);
    assert HeightsCorrect(t.left) && Balanced(t);
    DeleteFixCorrect(n);
  }

  /** The step after a recursive deletion from the right subtree. */
  lemma DeletedRight(t: Tree, key: string, n: Tree)
    requires t.Node? && IsAvl(t) && Less(t.key, key)
    requires n.Node? && n.key == t.key && n.value == t.value && n.left == t.left
    requires n.height == 1 + Max(Height(t.left), Height(n.right))
    requires IsAvl(n.right) && Entries(n.right) == Entries(t.right) - {key}
    requires Height(t.right) - 1 <= Height(n.right) <= Height(t.right)
    ensures DeleteFixable(n)
    ensures IsAvl(DeleteFix(n)) && Entries(DeleteFix(n)) == Entries(t) - {key}
    ensures Height(t) - 1 <= Height(DeleteFix(n)) <= Height(t)
  {
    forall x | x in Keys(t.left)
      ensures x != key
    {
      LessTransitive(x, t.key, key);
      LessIrreflexive(key);
    }
    LessIrreflexive(key);
    assert Ordered(n);
    RemoveMovesOut(Entries(t.left), Entries(t.right), key, t.key, t.value, false);
    assert HeightsCorrect(t.right) && Balanced(t);
    DeleteFixCorrect(n);
  }

  /** Removing a key from one side of a node's entry map removes it from the node's map. */
  lemma RemoveMovesOut(el: map<string, string>, er: map<string, string>, key: string,
                       nk: string, nv: string, inLeft: bool)
    requires key != nk
    requires inLeft ==> key !in er
    requires !inLeft ==> key !in el
    ensures inLeft ==> ((el - {key}) + er)[nk := nv] == (el + er)[nk := nv] - {key}
    ensures !inLeft ==> (el + (er - {key}))[nk := nv] == (el + er)[nk := nv] - {key}
  {
  }

  /**
   A node with at most one child is replaced by that child (or by nothing),
   which the recomputation and rotation cases then leave as it is.
   */
  lemma RemovedNode(t: Tree)
    requires t.Node? && IsAvl(t) && (t.left.Nil? || t.right.Nil?)
    ensures var c := if t.left.Node? then t.left else t.right;
      && IsAvl(c) && Entries(c) == Entries(t) - {t.key} && Height(c) == Height(t) - 1
      && (c.Node? ==> DeleteFixable(Fix(c)) && DeleteFix(Fix(c)) == c)
  {
    var c := if t.left.Node? then t.left else t.right;
    KeysApart(t);
    assert Entries(c) == Entries(t) - {t.key};
    if c.Node? {
      assert HeightsCorrect(c) && Balanced(c);
      assert Fix(c) == c;
    }
  }

  /**
   The two-child case: the node now carries its successor's entry and a right
   subtree from which the successor has been deleted.
   */
  lemma DeletedSuccessor(t: Tree, n: Tree)
    requires t.Node? && IsAvl(t) && t.right.Node?
    requires n.Node? && n.key == MinEntry(t.right).key && n.value == MinEntry(t.right).value
    requires n.left == t.left
    requires n.height == 1 + Max(Height(t.left), Height(n.right))
    requires IsAvl(n.right) && Entries(n.right) == Entries(t.right) - {n.key}
    requires Height(t.right) - 1 <= Height(n.right) <= Height(t.right)
    ensures DeleteFixable(n)
    ensures IsAvl(DeleteFix(n)) && Entries(DeleteFix(n)) == Entries(t) - {t.key}
    ensures Height(t) - 1 <= Height(DeleteFix(n)) <= Height(t)
  {
    assert Ordered(t.right);
    MinEntryIsLeast(t.right);
    KeysApart(t);
    forall x | x in Keys(t.left)
      ensures Less(x, n.key)
    {
      LessTransitive(x, t.key, n.key);
    }
    forall x | x in Keys(n.right)
      ensures Less(n.key, x)
    {
    }
    assert Ordered(n);
    SuccessorMoves(Entries(t.left), Entries(t.right), t.key, t.value, n.key, n.value);
    assert HeightsCorrect(t.right) && Balanced(t);
    DeleteFixCorrect(n);
  }

  /** Copying the successor's entry into the node and removing it from the right side. */
  lemma SuccessorMoves(el: map<string, string>, er: map<string, string>,
                       k: string, v: string, mk: string, mv: string)
    requires k !in el && k !in er && mk !in el
    requires mk in er && er[mk] == mv
    ensures (el + (er - {mk}))[mk := mv] == (el + er)[k := v] - {k}
  {
    var lhs := (el + (er - {mk}))[mk := mv];
    var rhs := (el + er)[k := v] - {k};
    assert lhs.Keys == rhs.Keys;
    assert lhs == rhs;
  }

  /**
   The rotation cases of `delete` repair a node whose children are valid AVL
   subtrees and whose balance is off by at most two, without raising it and
   lowering it by at most one.
   */
  lemma DeleteFixCorrect(n: Tree)
    requires n.Node? && n.height == 1 + Max(Height(n.left), Height(n.right))
    requires IsAvl(n.left) && IsAvl(n.right) && Ordered(n)
    requires -2 <= Balance(n) <= 2
    ensures DeleteFixable(n)
    ensures IsAvl(DeleteFix(n)) && Entries(DeleteFix(n)) == Entries(n)
    ensures -1 <= Balance(n) <= 1 ==> DeleteFix(n) == n
    ensures Height(n) - 1 <= Height(DeleteFix(n)) <= Height(n)
  {
    var b := Balance(n);
    if b == 2 {
      var l := n.left;
      assert HeightsCorrect(l) && Balanced(l);
      if Balance(l) == 1 {
        SingleRightBalanced(n);
      } else if Balance(l) == 0 {
        SingleRightLevel(n);
      } else {
        DoubleRightBalanced(n);
      }
    } else if b == -2 {
      var r := n.right;
      assert HeightsCorrect(r) && Balanced(r);
      if Balance(r) == -1 {
        SingleLeftBalanced(n);
      } else if Balance(r) == 0 {
        SingleLeftLevel(n);
      } else {
        DoubleLeftBalanced(n);
      }
    }
  }

  /** Deleting a key the tree does not hold gives back the very same tree. */
  lemma {:induction false} DeleteAbsentUnchanged(t: Tree, key: string)
    requires IsAvl(t) && key !in Keys(t)
    ensures Delete(t, key) == t
    decreases t
  {
    if t.Node? {
      assert HeightsCorrect(t) && Balanced(t);
      if Less(key, t.key) {
        DeleteAbsentUnchanged(t.left, key);
        assert Fix(t.(left := t.left)) == t;
      } else if Less(t.key, key) {
        DeleteAbsentUnchanged(t.right, key);
        assert Fix(t.(right := t.right)) == t;
      } else {
        NeitherLessIsEqual(key, t.key);
      }
    }
  }

  /** A deletion removes exactly one node when the key is stored and none otherwise. */
  lemma DeleteSize(t: Tree, key: string)
    requires IsAvl(t)
    ensures Size(Delete(t, key)) == Size(t) - (if key in Keys(t) then 1 else 0)
  {
    var r := Delete(t, key);
    SizeIsKeyCount(t);
    SizeIsKeyCount(r);
    assert Keys(r) == Keys(t) - {key};
  }
}
