/**
 `rotateLeft` and `rotateRight` (backend/index.js:31-47). Each moves two
 nodes, reuses their three subtrees unchanged, recomputes the height of the
 node that went down before that of the node that came up, and keeps the
 in-order sequence of entries.
 */
module Rotations {
  import opened KeyOrder
  import opened AvlNode

  /** `rotateLeft(x)`: `x.right` becomes the subtree root, `x` its left child. */
  function RotateLeft(x: Tree): (r: Tree)
    requires x.Node? && x.right.Node?
    ensures r.Node? && r.left.Node?
    ensures r.key == x.right.key && r.value == x.right.value
    ensures r.left.key == x.key && r.left.value == x.value
    ensures r.left.left == x.left && r.left.right == x.right.left && r.right == x.right.right
    ensures InOrder(r) == InOrder(x)
    ensures Keys(r) == Keys(x)
    ensures Ordered(x) ==> Ordered(r) && Entries(r) == Entries(x)
    ensures HeightsCorrect(x.left) && HeightsCorrect(x.right.left) && HeightsCorrect(x.right.right)
            ==> HeightsCorrect(r)
  {
    var y := x.right;
    var x' := Fix(x.(right := y.left));
    var r := Fix(y.(left := x'));
    assert InOrder(r) == InOrder(x.left) + [Entry(x.key, x.value)] + InOrder(y.left)
                         + [Entry(y.key, y.value)] + InOrder(y.right);
    RotatedLeftOrdered(x, r);
    r
  }

  /** `rotateRight(y)`: `y.left` becomes the subtree root, `y` its right child. */
  function RotateRight(y: Tree): (r: Tree)
    requires y.Node? && y.left.Node?
    ensures r.Node? && r.right.Node?
    ensures r.key == y.left.key && r.value == y.left.value
    ensures r.right.key == y.key && r.right.value == y.value
    ensures r.left == y.left.left && r.right.left == y.left.right && r.right.right == y.right
    ensures InOrder(r) == InOrder(y)
    ensures Keys(r) == Keys(y)
    ensures Ordered(y) ==> Ordered(r) && Entries(r) == Entries(y)
    ensures HeightsCorrect(y.left.left) && HeightsCorrect(y.left.right) && HeightsCorrect(y.right)
            ==> HeightsCorrect(r)
  {
    var x := y.left;
    var y' := Fix(y.(left := x.right));
    var r := Fix(x.(right := y'));
    assert InOrder(r) == InOrder(x.left) + [Entry(x.key, x.value)] + InOrder(x.right)
                         + [Entry(y.key, y.value)] + InOrder(y.right);
    RotatedRightOrdered(y, r);
    r
  }

  lemma RotatedLeftOrdered(x: Tree, r: Tree)
    requires x.Node? && x.right.Node?
    requires r.Node? && r.left.Node?
    requires r.key == x.right.key && r.value == x.right.value
    requires r.left.key == x.key && r.left.value == x.value
    requires r.left.left == x.left && r.left.right == x.right.left && r.right == x.right.right
    ensures Ordered(x) ==> Ordered(r) && Entries(r) == Entries(x)
  {
    if Ordered(x) {
      var y := x.right;
      assert Ordered(y);
      assert y.key in Keys(x.right);
      forall z | z in Keys(y.left)
        ensures Less(x.key, z) && Less(z, y.key)
      {
        assert z in Keys(x.right);
      }
      assert r == Node(Node(x.left, x.key, x.value, y.left, r.left.height), y.key, y.value, y.right, r.height);
      JoinedLeft(x.left, y.left, y.right, x.key, x.value, y.key, y.value, r.left.height, r.height);
      SwappedEntries(x.left, y.left, y.right, x.key, x.value, y.key, y.value);
    }
  }

  lemma RotatedRightOrdered(y: Tree, r: Tree)
    requires y.Node? && y.left.Node?
    requires r.Node? && r.right.Node?
    requires r.key == y.left.key && r.value == y.left.value
    requires r.right.key == y.key && r.right.value == y.value
    requires r.left == y.left.left && r.right.left == y.left.right && r.right.right == y.right
    ensures Ordered(y) ==> Ordered(r) && Entries(r) == Entries(y)
  {
    if Ordered(y) {
      var x := y.left;
      assert Ordered(x);
      assert x.key in Keys(y.left);
      forall z | z in Keys(x.right)
        ensures Less(x.key, z) && Less(z, y.key)
      {
        assert z in Keys(y.left);
      }
      assert r == Node(x.left, x.key, x.value, Node(x.right, y.key, y.value, y.right, r.right.height), r.height);
      JoinedRight(x.left, x.right, y.right, x.key, x.value, y.key, y.value, r.right.height, r.height);
      SwappedEntries(x.left, x.right, y.right, x.key, x.value, y.key, y.value);
    }
  }

  /** `a xk b` under `yk` with `c` on the right is ordered when the five parts are. */
  lemma JoinedLeft(a: Tree, b: Tree, c: Tree, xk: string, xv: string, yk: string, yv: string, h: nat, h': nat)
    requires Ordered(a) && Ordered(b) && Ordered(c)
    requires forall z | z in Keys(a) :: Less(z, xk)
    requires forall z | z in Keys(b) :: Less(xk, z) && Less(z, yk)
    requires forall z | z in Keys(c) :: Less(yk, z)
    requires Less(xk, yk)
    ensures Ordered(Node(Node(a, xk, xv, b, h), yk, yv, c, h'))
  {
    forall z | z in Keys(a)
      ensures Less(z, yk)
    {
      LessTransitive(z, xk, yk);
    }
    assert Ordered(Node(a, xk, xv, b, h));
  }

  /** `xk` over `a` on the left and `b yk c` on the right is ordered when the five parts are. */
  lemma JoinedRight(a: Tree, b: Tree, c: Tree, xk: string, xv: string, yk: string, yv: string, h: nat, h': nat)
    requires Ordered(a) && Ordered(b) && Ordered(c)
    requires forall z | z in Keys(a) :: Less(z, xk)
    requires forall z | z in Keys(b) :: Less(xk, z) && Less(z, yk)
    requires forall z | z in Keys(c) :: Less(yk, z)
    requires Less(xk, yk)
    ensures Ordered(Node(a, xk, xv, Node(b, yk, yv, c, h), h'))
  {
    forall z | z in Keys(c)
      ensures Less(xk, z)
    {
      LessTransitive(xk, yk, z);
    }
    assert Ordered(Node(b, yk, yv, c, h));
  }

  /**
   The entries of `a xk b yk c` do not depend on which of the two keys is the
   subtree root, as long as the three subtrees and two keys are ordered.
   */
  lemma SwappedEntries(a: Tree, b: Tree, c: Tree, xk: string, xv: string, yk: string, yv: string)
    requires Ordered(a) && Ordered(b) && Ordered(c)
    requires forall z | z in Keys(a) :: Less(z, xk)
    requires forall z | z in Keys(b) :: Less(xk, z) && Less(z, yk)
    requires forall z | z in Keys(c) :: Less(yk, z)
    requires Less(xk, yk)
    ensures Entries(Node(a, xk, xv, Node(b, yk, yv, c, 0), 0))
         == Entries(Node(Node(a, xk, xv, b, 0), yk, yv, c, 0))
  {
    LessIrreflexive(xk);
    if xk in Keys(c) {
      LessAsymmetric(xk, yk);
    }
    SwappedMaps(Entries(a), Entries(b), Entries(c), xk, xv, yk, yv);
  }

  /**
   Both ways of adding two distinct keys to three merged maps agree, as long
   as the key added first is not in the last map.
   */
  lemma SwappedMaps(ea: map<string, string>, eb: map<string, string>, ec: map<string, string>,
                    xk: string, xv: string, yk: string, yv: string)
    requires xk != yk && xk !in ec
    ensures (ea + (eb + ec)[yk := yv])[xk := xv] == ((ea + eb)[xk := xv] + ec)[yk := yv]
  {
    var lhs := (ea + (eb + ec)[yk := yv])[xk := xv];
    var rhs := ((ea + eb)[xk := xv] + ec)[yk := yv];
    assert lhs.Keys == rhs.Keys;
    forall z | z in lhs
      ensures lhs[z] == rhs[z]
    {
    }
  }

  /** `rotateRight` on a node two too heavy on the left whose left child leans left. */
  lemma SingleRightBalanced(n: Tree)
    requires n.Node? && n.height == 1 + Max(Height(n.left), Height(n.right))
    requires IsAvl(n.left) && IsAvl(n.right) && Ordered(n)
    requires Balance(n) == 2 && n.left.Node? && Balance(n.left) == 1
    ensures IsAvl(RotateRight(n)) && Entries(RotateRight(n)) == Entries(n)
    ensures Height(RotateRight(n)) == Height(n) - 1
  {
    var l := n.left;
    assert HeightsCorrect(l) && Balanced(l);
    var r := RotateRight(n);
    assert HeightsCorrect(r);
    assert Height(r.right) == Height(l.right) + 1;
    assert Balanced(r.right);
  }

  /** `rotateLeft` on a node two too heavy on the right whose right child leans right. */
  lemma SingleLeftBalanced(n: Tree)
    requires n.Node? && n.height == 1 + Max(Height(n.left), Height(n.right))
    requires IsAvl(n.left) && IsAvl(n.right) && Ordered(n)
    requires Balance(n) == -2 && n.right.Node? && Balance(n.right) == -1
    ensures IsAvl(RotateLeft(n)) && Entries(RotateLeft(n)) == Entries(n)
    ensures Height(RotateLeft(n)) == Height(n) - 1
  {
    var rt := n.right;
    assert HeightsCorrect(rt) && Balanced(rt);
    var r := RotateLeft(n);
    assert HeightsCorrect(r);
    assert Height(r.left) == Height(rt.left) + 1;
    assert Balanced(r.left);
  }

  /** The left-right case: `rotateLeft` on the left child, then `rotateRight`. */
  lemma DoubleRightBalanced(n: Tree)
    requires n.Node? && n.height == 1 + Max(Height(n.left), Height(n.right))
    requires IsAvl(n.left) && IsAvl(n.right) && Ordered(n)
    requires Balance(n) == 2 && n.left.Node? && Balance(n.left) == -1
    ensures n.left.right.Node?
    ensures IsAvl(RotateRight(n.(left := RotateLeft(n.left))))
    ensures Entries(RotateRight(n.(left := RotateLeft(n.left)))) == Entries(n)
    ensures Height(RotateRight(n.(left := RotateLeft(n.left)))) == Height(n) - 1
  {
    assert HeightsCorrect(n.left) && n.left.right.Node?;
    DoubleRightOrdered(n);
    DoubleRightHeights(n.left, n.key, n.value, n.right);
  }

  /** The left-right case keeps the keys ordered and the entries. */
  lemma DoubleRightOrdered(n: Tree)
    requires n.Node? && n.left.Node? && n.left.right.Node? && Ordered(n)
    ensures Ordered(RotateRight(n.(left := RotateLeft(n.left))))
    ensures Entries(RotateRight(n.(left := RotateLeft(n.left)))) == Entries(n)
  {
    assert Ordered(n.left);
    var m := n.(left := RotateLeft(n.left));
    assert Ordered(m);
  }

  /** The left-right case on heights alone, for a left child two taller than the right. */
  lemma DoubleRightHeights(l: Tree, k: string, v: string, c: Tree)
    requires l.Node? && l.right.Node? && HeightsCorrect(l) && Balanced(l)
    requires HeightsCorrect(c) && Balanced(c)
    requires Height(l) == Height(c) + 2 && Balance(l) == -1
    ensures forall h :: HeightsCorrect(RotateRight(Node(RotateLeft(l), k, v, c, h)))
    ensures forall h :: Balanced(RotateRight(Node(RotateLeft(l), k, v, c, h)))
    ensures forall h :: Height(RotateRight(Node(RotateLeft(l), k, v, c, h))) == Height(c) + 2
  {
    var lr := l.right;
    assert HeightsCorrect(lr) && Balanced(lr);
    var a := RotateLeft(l);
    assert HeightsCorrect(a);
    forall h
      ensures HeightsCorrect(RotateRight(Node(a, k, v, c, h)))
      ensures Balanced(RotateRight(Node(a, k, v, c, h)))
      ensures Height(RotateRight(Node(a, k, v, c, h))) == Height(c) + 2
    {
      var r := RotateRight(Node(a, k, v, c, h));
      assert r.left.left == l.left && r.left.right == lr.left;
      assert r.right.left == lr.right && r.right.right == c;
      BalancedJoin(r);
    }
  }

  /** The right-left case: `rotateRight` on the right child, then `rotateLeft`. */
  lemma DoubleLeftBalanced(n: Tree)
    requires n.Node? && n.height == 1 + Max(Height(n.left), Height(n.right))
    requires IsAvl(n.left) && IsAvl(n.right) && Ordered(n)
    requires Balance(n) == -2 && n.right.Node? && Balance(n.right) == 1
    ensures n.right.left.Node?
    ensures IsAvl(RotateLeft(n.(right := RotateRight(n.right))))
    ensures Entries(RotateLeft(n.(right := RotateRight(n.right)))) == Entries(n)
    ensures Height(RotateLeft(n.(right := RotateRight(n.right)))) == Height(n) - 1
  {
    assert HeightsCorrect(n.right) && n.right.left.Node?;
    DoubleLeftOrdered(n);
    DoubleLeftHeights(n.left, n.key, n.value, n.right);
  }

  /** The right-left case keeps the keys ordered and the entries. */
  lemma DoubleLeftOrdered(n: Tree)
    requires n.Node? && n.right.Node? && n.right.left.Node? && Ordered(n)
    ensures Ordered(RotateLeft(n.(right := RotateRight(n.right))))
    ensures Entries(RotateLeft(n.(right := RotateRight(n.right)))) == Entries(n)
  {
    assert Ordered(n.right);
    var m := n.(right := RotateRight(n.right));
    assert Ordered(m);
  }

  /** The right-left case on heights alone, for a right child two taller than the left. */
  lemma DoubleLeftHeights(a: Tree, k: string, v: string, rt: Tree)
    requires rt.Node? && rt.left.Node? && HeightsCorrect(rt) && Balanced(rt)
    requires HeightsCorrect(a) && Balanced(a)
    requires Height(rt) == Height(a) + 2 && Balance(rt) == 1
    ensures forall h :: HeightsCorrect(RotateLeft(Node(a, k, v, RotateRight(rt), h)))
    ensures forall h :: Balanced(RotateLeft(Node(a, k, v, RotateRight(rt), h)))
    ensures forall h :: Height(RotateLeft(Node(a, k, v, RotateRight(rt), h))) == Height(a) + 2
  {
    var rl := rt.left;
    assert HeightsCorrect(rl) && Balanced(rl);
    var b := RotateRight(rt);
    assert HeightsCorrect(b);
    forall h
      ensures HeightsCorrect(RotateLeft(Node(a, k, v, b, h)))
      ensures Balanced(RotateLeft(Node(a, k, v, b, h)))
      ensures Height(RotateLeft(Node(a, k, v, b, h))) == Height(a) + 2
    {
      var r := RotateLeft(Node(a, k, v, b, h));
      assert r.left.left == a && r.left.right == rl.left;
      assert r.right.left == rl.right && r.right.right == rt.right;
      BalancedJoin(r);
    }
  }

  /**
   The shape both double rotations produce: two outer subtrees of one height,
   two inner ones at most one lower, joined under two new nodes, is balanced
   and two levels taller than the outer subtrees.
   */
  lemma BalancedJoin(r: Tree)
    requires r.Node? && r.left.Node? && r.right.Node? && HeightsCorrect(r)
    requires Balanced(r.left.left) && Balanced(r.left.right)
    requires Balanced(r.right.left) && Balanced(r.right.right)
    requires Height(r.right.right) == Height(r.left.left)
    requires Height(r.left.left) - 1 <= Height(r.left.right) <= Height(r.left.left)
    requires Height(r.left.left) - 1 <= Height(r.right.left) <= Height(r.left.left)
    ensures Balanced(r) && Height(r) == Height(r.left.left) + 2
  {
    assert Balanced(r.left) && Balanced(r.right);
  }

  /** `rotateRight` on a node two too heavy on the left whose left child is level (deletion only). */
  lemma SingleRightLevel(n: Tree)
    requires n.Node? && n.height == 1 + Max(Height(n.left), Height(n.right))
    requires IsAvl(n.left) && IsAvl(n.right) && Ordered(n)
    requires Balance(n) == 2 && n.left.Node? && Balance(n.left) == 0
    ensures IsAvl(RotateRight(n)) && Entries(RotateRight(n)) == Entries(n)
    ensures Height(RotateRight(n)) == Height(n)
  {
    var l := n.left;
    assert HeightsCorrect(l) && Balanced(l);
    var r := RotateRight(n);
    assert HeightsCorrect(r);
    assert Height(r.right) == Height(l.right) + 1;
    assert Balanced(r.right);
  }

  /** `rotateLeft` on a node two too heavy on the right whose right child is level (deletion only). */
  lemma SingleLeftLevel(n: Tree)
    requires n.Node? && n.height == 1 + Max(Height(n.left), Height(n.right))
    requires IsAvl(n.left) && IsAvl(n.right) && Ordered(n)
    requires Balance(n) == -2 && n.right.Node? && Balance(n.right) == 0
    ensures IsAvl(RotateLeft(n)) && Entries(RotateLeft(n)) == Entries(n)
    ensures Height(RotateLeft(n)) == Height(n)
  {
    var rt := n.right;
    assert HeightsCorrect(rt) && Balanced(rt);
    var r := RotateLeft(n);
    assert HeightsCorrect(r);
    assert Height(r.left) == Height(rt.left) + 1;
    assert Balanced(r.left);
  }

  /**
   Replacing the left child by a rotation of it (the inner step of a double
   rotation) leaves the node's in-order sequence, keys and dictionary alone.
   */
  lemma LeftChildRotated(n: Tree, c: Tree)
    requires n.Node? && InOrder(c) == InOrder(n.left) && Keys(c) == Keys(n.left)
    requires Ordered(n.left) ==> Ordered(c) && Entries(c) == Entries(n.left)
    ensures InOrder(n.(left := c)) == InOrder(n) && Keys(n.(left := c)) == Keys(n)
    ensures Ordered(n) ==> Ordered(n.(left := c)) && Entries(n.(left := c)) == Entries(n)
  {
  }

  /** The mirror image of `LeftChildRotated`. */
  lemma RightChildRotated(n: Tree, c: Tree)
    requires n.Node? && InOrder(c) == InOrder(n.right) && Keys(c) == Keys(n.right)
    requires Ordered(n.right) ==> Ordered(c) && Entries(c) == Entries(n.right)
    ensures InOrder(n.(right := c)) == InOrder(n) && Keys(n.(right := c)) == Keys(n)
    ensures Ordered(n) ==> Ordered(n.(right := c)) && Entries(n.(right := c)) == Entries(n)
  {
  }
}
