/**
 Worked scenarios of the dictionary. Each step is proved for any keys in the
 given order, and the scenarios are then stated for literal keys.
 */
module Scenarios {
  import opened KeyOrder
  import opened AvlNode
  import opened AvlInsert
  import opened AvlDelete
  import opened Traversals

  /** A smaller key goes left of a lone node; nothing rotates. */
  lemma InsertLeftOfLeaf(a: string, va: string, b: string, vb: string)
    requires Less(b, a)
    ensures Insert(NewNode(a, va), b, vb) == Node(NewNode(b, vb), a, va, Nil, 2)
  {
    LessAsymmetric(b, a);
    assert Insert(Nil, b, vb) == NewNode(b, vb);
    assert Balance(Node(NewNode(b, vb), a, va, Nil, 2)) == 1;
  }

  /** A larger key goes right of a lone node; nothing rotates. */
  lemma InsertRightOfLeaf(a: string, va: string, b: string, vb: string)
    requires Less(a, b)
    ensures Insert(NewNode(a, va), b, vb) == Node(Nil, a, va, NewNode(b, vb), 2)
  {
    LessAsymmetric(a, b);
    assert Insert(Nil, b, vb) == NewNode(b, vb);
    assert Balance(Node(Nil, a, va, NewNode(b, vb), 2)) == -1;
  }

  /** A larger key fills the empty right side of a node with a left child. */
  lemma InsertFillsRight(b: string, vb: string, a: string, va: string, c: string, vc: string)
    requires Less(b, a) && Less(a, c)
    requires IsAvl(Node(NewNode(b, vb), a, va, Nil, 2))
    ensures Insert(Node(NewNode(b, vb), a, va, Nil, 2), c, vc) == Node(NewNode(b, vb), a, va, NewNode(c, vc), 2)
  {
    LessAsymmetric(a, c);
    assert Insert(Nil, c, vc) == NewNode(c, vc);
    assert Balance(Node(NewNode(b, vb), a, va, NewNode(c, vc), 2)) == 0;
  }

  /** Right-right case: the third ascending key rotates the chain left. */
  lemma InsertRotatesLeft(a: string, b: string, c: string)
    requires Less(a, b) && Less(b, c)
    requires IsAvl(Node(Nil, a, "v", NewNode(b, "v"), 2))
    ensures Insert(Node(Nil, a, "v", NewNode(b, "v"), 2), c, "v") == Node(NewNode(a, "v"), b, "v", NewNode(c, "v"), 2)
  {
    LessTransitive(a, b, c);
    LessAsymmetric(a, c);
    InsertRightOfLeaf(b, "v", c, "v");
    var n := Node(Nil, a, "v", Node(Nil, b, "v", NewNode(c, "v"), 2), 3);
    assert Balance(n) == -2 && Less(b, c);
  }

  /** A larger key below a full right leaf deepens the tree by one; nothing rotates. */
  lemma InsertDeepensRight(x: string, a: string, b: string, c: string)
    requires Less(a, b) && Less(b, c)
    requires IsAvl(Node(NewNode(x, "v"), a, "v", NewNode(b, "v"), 2))
    ensures Insert(Node(NewNode(x, "v"), a, "v", NewNode(b, "v"), 2), c, "v")
         == Node(NewNode(x, "v"), a, "v", Node(Nil, b, "v", NewNode(c, "v"), 2), 3)
  {
    LessTransitive(a, b, c);
    LessAsymmetric(a, c);
    InsertRightOfLeaf(b, "v", c, "v");
    assert Balance(Node(NewNode(x, "v"), a, "v", Node(Nil, b, "v", NewNode(c, "v"), 2), 3)) == -1;
  }

  /** A rotation one level down keeps the root and its height. */
  lemma InsertRotatesBelow(x: string, a: string, b: string, c: string, d: string)
    requires Less(a, b) && Less(b, c) && Less(c, d)
    requires IsAvl(Node(NewNode(x, "v"), a, "v", Node(Nil, b, "v", NewNode(c, "v"), 2), 3))
    ensures Insert(Node(NewNode(x, "v"), a, "v", Node(Nil, b, "v", NewNode(c, "v"), 2), 3), d, "v")
         == Node(NewNode(x, "v"), a, "v", Node(NewNode(b, "v"), c, "v", NewNode(d, "v"), 2), 3)
  {
    LessTransitive(a, b, c);
    LessTransitive(a, c, d);
    LessAsymmetric(a, d);
    var t := Node(NewNode(x, "v"), a, "v", Node(Nil, b, "v", NewNode(c, "v"), 2), 3);
    assert IsAvl(t.right);
    InsertRotatesLeft(b, c, d);
    assert Balance(Node(NewNode(x, "v"), a, "v", Node(NewNode(b, "v"), c, "v", NewNode(d, "v"), 2), 3)) == -1;
  }

  /**
   Three keys inserted middle first, then smallest, then largest, come back
   sorted, each with its own value, from a tree of height 2, with no rotation.
   */
  lemma MiddleFirstSorted(a: string, va: string, b: string, vb: string, c: string, vc: string)
    requires Less(a, b) && Less(b, c)
    ensures var t := Insert(Insert(Insert(Nil, b, vb), a, va), c, vc);
      t == Node(NewNode(a, va), b, vb, NewNode(c, vc), 2)
      && InOrder(t) == [Entry(a, va), Entry(b, vb), Entry(c, vc)]
  {
    MiddleFirstTree(a, va, b, vb, c, vc);
    ThreeInOrder(a, va, b, vb, c, vc);
  }

  lemma MiddleFirstTree(a: string, va: string, b: string, vb: string, c: string, vc: string)
    requires Less(a, b) && Less(b, c)
    ensures Insert(Insert(Insert(Nil, b, vb), a, va), c, vc) == Node(NewNode(a, va), b, vb, NewNode(c, vc), 2)
  {
    assert Insert(Nil, b, vb) == NewNode(b, vb);
    InsertLeftOfLeaf(b, vb, a, va);
    InsertFillsRight(a, va, b, vb, c, vc);
  }

  lemma ThreeInOrder(a: string, va: string, b: string, vb: string, c: string, vc: string)
    ensures InOrder(Node(NewNode(a, va), b, vb, NewNode(c, vc), 2)) == [Entry(a, va), Entry(b, vb), Entry(c, vc)]
  {
    assert InOrder(NewNode(a, va)) == [Entry(a, va)];
    assert InOrder(NewNode(c, vc)) == [Entry(c, vc)];
  }

  /** The first two of the ascending keys. */
  lemma AscendingTwo(a: string, b: string)
    requires Less(a, b)
    ensures Insert(Insert(Nil, a, "v"), b, "v") == Node(Nil, a, "v", NewNode(b, "v"), 2)
  {
    assert Insert(Nil, a, "v") == NewNode(a, "v");
    InsertRightOfLeaf(a, "v", b, "v");
  }

  /** The third ascending key makes the first rotation. */
  lemma AscendingThree(a: string, b: string, c: string)
    requires Less(a, b) && Less(b, c)
    ensures Insert(Insert(Insert(Nil, a, "v"), b, "v"), c, "v") == Node(NewNode(a, "v"), b, "v", NewNode(c, "v"), 2)
  {
    AscendingTwo(a, b);
    InsertRotatesLeft(a, b, c);
  }

  /** The fourth ascending key deepens the right side. */
  lemma AscendingFour(a: string, b: string, c: string, d: string)
    requires Less(a, b) && Less(b, c) && Less(c, d)
    ensures Insert(Insert(Insert(Insert(Nil, a, "v"), b, "v"), c, "v"), d, "v")
         == Node(NewNode(a, "v"), b, "v", Node(Nil, c, "v", NewNode(d, "v"), 2), 3)
  {
    AscendingThree(a, b, c);
    InsertDeepensRight(a, b, c, d);
  }

  /**
   Five keys inserted in ascending order, the worst case for an unbalanced
   search tree, give a tree of height 3 rather than a chain of height 5.
   */
  lemma AscendingInsertsStayBalanced(a: string, b: string, c: string, d: string, e: string)
    requires Less(a, b) && Less(b, c) && Less(c, d) && Less(d, e)
    ensures Insert(Insert(Insert(Insert(Insert(Nil, a, "v"), b, "v"), c, "v"), d, "v"), e, "v")
         == Node(NewNode(a, "v"), b, "v", Node(NewNode(c, "v"), d, "v", NewNode(e, "v"), 2), 3)
  {
    AscendingFour(a, b, c, d);
    InsertRotatesBelow(a, b, c, d, e);
  }

  /**
   `searchPrefix("")` on the tree of five ascending inserts reports two
   entries, the root and its left child, not all five.
   */
  lemma EmptyPrefixAfterAscending(a: string, b: string, c: string, d: string, e: string)
    requires Less(a, b) && Less(b, c) && Less(c, d) && Less(d, e)
    ensures var t := Insert(Insert(Insert(Insert(Insert(Nil, a, "v"), b, "v"), c, "v"), d, "v"), e, "v");
      Completions(t, "") == [Entry(b, "v"), Entry(a, "v")]
  {
    AscendingInsertsStayBalanced(a, b, c, d, e);
    EmptyPrefixOnFive(a, b, c, d, e);
  }

  lemma EmptyPrefixOnFive(a: string, b: string, c: string, d: string, e: string)
    requires Less(a, b)
    ensures Completions(Node(NewNode(a, "v"), b, "v", Node(NewNode(c, "v"), d, "v", NewNode(e, "v"), 2), 3), "")
         == [Entry(b, "v"), Entry(a, "v")]
  {
    assert Less("", b);
    assert StartsWith(a, "") && StartsWith(b, "");
    assert Completions(NewNode(a, "v"), "") == [Entry(a, "v")];
  }

  /**
   Deleting the two-child root of `m(b, x)` moves its successor `x` into the
   root, which keeps `b` as its left child.
   */
  lemma DeleteTwoChildRoot(b: string, m: string, x: string)
    requires Less(b, m) && Less(m, x)
    requires IsAvl(Node(NewNode(b, "v"), m, "v", NewNode(x, "v"), 2))
    ensures Delete(Node(NewNode(b, "v"), m, "v", NewNode(x, "v"), 2), m) == Node(NewNode(b, "v"), x, "v", Nil, 2)
  {
    var t := Node(NewNode(b, "v"), m, "v", NewNode(x, "v"), 2);
    LessIrreflexive(m);
    LessIrreflexive(x);
    assert MinEntry(NewNode(x, "v")) == Entry(x, "v");
    assert Delete(NewNode(x, "v"), x) == Nil;
    var n := Node(NewNode(b, "v"), x, "v", Nil, 2);
    assert Fix(t.(key := x, value := "v", right := Nil)) == n;
    assert Balance(n) == 1;
  }

  /**
   `m`, `b`, `x` inserted, then `m` deleted: the successor `x` is promoted to
   the root with `b` as its left child, and `b` and `x` remain, in order.
   */
  lemma InsertThreeDeleteRoot(b: string, m: string, x: string)
    requires Less(b, m) && Less(m, x)
    ensures var t := Insert(Insert(Insert(Nil, m, "v"), b, "v"), x, "v");
      Delete(t, m) == Node(NewNode(b, "v"), x, "v", Nil, 2)
      && InOrder(Delete(t, m)) == [Entry(b, "v"), Entry(x, "v")]
  {
    MiddleFirstTree(b, "v", m, "v", x, "v");
    DeleteTwoChildRoot(b, m, x);
    DeletedRootInOrder(b, m, x);
  }

  lemma DeletedRootInOrder(b: string, m: string, x: string)
    requires Less(b, m) && Less(m, x)
    requires IsAvl(Node(NewNode(b, "v"), m, "v", NewNode(x, "v"), 2))
    ensures InOrder(Delete(Node(NewNode(b, "v"), m, "v", NewNode(x, "v"), 2), m)) == [Entry(b, "v"), Entry(x, "v")]
  {
    DeleteTwoChildRoot(b, m, x);
    assert InOrder(NewNode(b, "v")) == [Entry(b, "v")];
  }

  /** `"a"` to `"e"` inserted in order, then searched with the empty prefix: two of five entries come back. */
  lemma EmptyPrefixOnLetters()
    ensures var t := Insert(Insert(Insert(Insert(Insert(Nil, "a", "v"), "b", "v"), "c", "v"), "d", "v"), "e", "v");
      Completions(t, "") == [Entry("b", "v"), Entry("a", "v")] && Size(t) == 5
  {
    assert Less("a", "b") && Less("b", "c") && Less("c", "d") && Less("d", "e");
    EmptyPrefixAfterAscending("a", "b", "c", "d", "e");
    AscendingInsertsStayBalanced("a", "b", "c", "d", "e");
  }

  /** Three fruit inserted out of order come back sorted, each with its own meaning. */
  lemma ThreeFruitSorted()
    ensures var t := Insert(Insert(Insert(Nil, "banana", "yellow fruit"), "apple", "red fruit"), "cherry", "small red fruit");
      InOrder(t) == [Entry("apple", "red fruit"), Entry("banana", "yellow fruit"), Entry("cherry", "small red fruit")]
  {
    assert Less("apple", "banana") && Less("banana", "cherry");
    MiddleFirstSorted("apple", "red fruit", "banana", "yellow fruit", "cherry", "small red fruit");
  }
}
