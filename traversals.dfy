/**
 The two read-only walks of the tree: `inorder` (backend/index.js:96-102)
 and the pruned prefix walk `autocomplete` behind `searchPrefix`
 (backend/index.js:82-94). Both push `{ key, value }` records into a
 result list; here that list is a sequence the walk extends.
 */
module Traversals {
  import opened KeyOrder
  import opened AvlNode

  /** Keys strictly increase along the sequence. */
  ghost predicate StrictlyAscending(s: seq<Entry>)
  {
    forall i, j | 0 <= i < j < |s| :: Less(s[i].key, s[j].key)
  }

  /** No key occurs twice in the sequence. */
  ghost predicate DistinctKeys(s: seq<Entry>)
  {
    forall i, j | 0 <= i < j < |s| :: s[i].key != s[j].key
  }

  /** `inorder` lists exactly the entries of the tree, one per node. */
  lemma {:induction false} InOrderEntries(t: Tree)
    requires Ordered(t)
    ensures |InOrder(t)| == Size(t)
    ensures forall e | e in InOrder(t) :: e.key in Entries(t) && Entries(t)[e.key] == e.value
    ensures forall k | k in Entries(t) :: Entry(k, Entries(t)[k]) in InOrder(t)
    decreases t
  {
    if t.Node? {
      InOrderEntries(t.left);
      InOrderEntries(t.right);
      EntriesAt(t);
      var el, er := Entries(t.left), Entries(t.right);
      var s := InOrder(t);
      assert s == InOrder(t.left) + [Entry(t.key, t.value)] + InOrder(t.right);
      forall e | e in s
        ensures e.key in Entries(t) && Entries(t)[e.key] == e.value
      {
        if e in InOrder(t.right) {
          assert e.key in er;
        } else if e in InOrder(t.left) {
          assert e.key in el;
        }
      }
      forall k | k in Entries(t)
        ensures Entry(k, Entries(t)[k]) in s
      {
        if k in er {
          assert Entry(k, er[k]) in InOrder(t.right);
        } else if k in el {
          assert Entry(k, el[k]) in InOrder(t.left);
        }
      }
    }
  }

  /** Where a key of an ordered node is found, and the value stored with it. */
  lemma EntriesAt(t: Tree)
    requires t.Node? && Ordered(t)
    ensures Entries(t)[t.key] == t.value
    ensures forall k | k in Entries(t.left) :: Entries(t)[k] == Entries(t.left)[k]
    ensures forall k | k in Entries(t.right) :: Entries(t)[k] == Entries(t.right)[k]
    ensures forall k | k in Entries(t) :: k == t.key || k in Entries(t.left) || k in Entries(t.right)
  {
    KeysApart(t);
  }

  /** `inorder` lists the keys of an ordered tree strictly ascending, so each once. */
  lemma {:induction false} InOrderAscending(t: Tree)
    requires Ordered(t)
    ensures StrictlyAscending(InOrder(t))
    ensures DistinctKeys(InOrder(t))
    decreases t
  {
    if t.Node? {
      InOrderAscending(t.left);
      InOrderAscending(t.right);
      InOrderEntries(t.left);
      InOrderEntries(t.right);
      AscendingAround(InOrder(t.left), Entry(t.key, t.value), InOrder(t.right));
    }
    AscendingDistinct(InOrder(t));
  }

  /** A key placed between an ascending run of smaller keys and one of larger keys keeps the order. */
  lemma AscendingAround(a: seq<Entry>, e: Entry, b: seq<Entry>)
    requires StrictlyAscending(a) && StrictlyAscending(b)
    requires forall x | x in a :: Less(x.key, e.key)
    requires forall y | y in b :: Less(e.key, y.key)
    ensures StrictlyAscending(a + [e] + b)
  {
    var s := a + [e] + b;
    forall i, j | 0 <= i < j < |s|
      ensures Less(s[i].key, s[j].key)
    {
      if i < |a| && j == |a| {
        assert s[i] == a[i] && a[i] in a;
      } else if i == |a| && j > |a| {
        assert s[j] == b[j - |a| - 1] && b[j - |a| - 1] in b;
      } else if i < |a| && j > |a| {
        assert s[i] == a[i] && a[i] in a;
        assert s[j] == b[j - |a| - 1] && b[j - |a| - 1] in b;
        LessTransitive(s[i].key, e.key, s[j].key);
      } else if j < |a| {
        assert s[i] == a[i] && s[j] == a[j];
      } else {
        assert s[i] == b[i - |a| - 1] && s[j] == b[j - |a| - 1];
      }
    }
  }

  /** Strictly ascending keys are distinct. */
  lemma AscendingDistinct(s: seq<Entry>)
    requires StrictlyAscending(s)
    ensures DistinctKeys(s)
  {
    forall i, j | 0 <= i < j < |s|
      ensures s[i].key != s[j].key
    {
      if s[i].key == s[j].key {
        LessIrreflexive(s[i].key);
      }
    }
  }

  /**
   What `autocomplete(node, prefix, result)` appends to `result`: the node
   itself when its key starts with the prefix, then the left subtree when
   `prefix <= node.key`, then the right subtree when `prefix >= node.key`.
   The node comes before its subtrees, so the order is pre-order. Each
   node is visited at most once and only matching keys are reported.
   */
  function Completions(t: Tree, prefix: string): (r: seq<Entry>)
    ensures |r| <= Size(t)
    ensures forall e | e in r :: StartsWith(e.key, prefix)
  {
    if t.Nil? then []
    else
      (if StartsWith(t.key, prefix) then [Entry(t.key, t.value)] else [])
      + (if !Less(t.key, prefix) then Completions(t.left, prefix) else [])
      + (if !Less(prefix, t.key) then Completions(t.right, prefix) else [])
  }

  /** Every entry the prefix walk reports is a node of the tree whose key starts with the prefix. */
  lemma {:induction false} CompletionsFromTree(t: Tree, prefix: string)
    ensures forall e | e in Completions(t, prefix) :: e in InOrder(t) && StartsWith(e.key, prefix)
    decreases t
  {
    if t.Node? {
      CompletionsFromTree(t.left, prefix);
      CompletionsFromTree(t.right, prefix);
    }
  }

  /**
   `searchPrefix` is sound: on an ordered tree each reported entry is stored
   with that value, its key starts with the prefix, and no key is reported twice.
   */
  lemma CompletionsSound(t: Tree, prefix: string)
    requires Ordered(t)
    ensures forall e | e in Completions(t, prefix) ::
      StartsWith(e.key, prefix) && e.key in Entries(t) && Entries(t)[e.key] == e.value
    ensures DistinctKeys(Completions(t, prefix))
  {
    CompletionsFromTree(t, prefix);
    InOrderEntries(t);
    CompletionsDistinct(t, prefix);
  }

  lemma {:induction false} CompletionsDistinct(t: Tree, prefix: string)
    requires Ordered(t)
    ensures DistinctKeys(Completions(t, prefix))
    decreases t
  {
    if t.Node? {
      CompletionsDistinct(t.left, prefix);
      CompletionsDistinct(t.right, prefix);
      CompletionsFromTree(t.left, prefix);
      CompletionsFromTree(t.right, prefix);
      InOrderEntries(t.left);
      InOrderEntries(t.right);
      KeysApart(t);
      var a := if StartsWith(t.key, prefix) then [Entry(t.key, t.value)] else [];
      var b := if !Less(t.key, prefix) then Completions(t.left, prefix) else [];
      var c := if !Less(prefix, t.key) then Completions(t.right, prefix) else [];
      assert forall e | e in b :: e.key in Keys(t.left);
      assert forall e | e in c :: e.key in Keys(t.right);
      DistinctConcat(a, b);
      DistinctConcat(a + b, c);
    }
  }

  /** Two key-distinct sequences with no key in common concatenate to a key-distinct one. */
  lemma DistinctConcat(a: seq<Entry>, b: seq<Entry>)
    requires DistinctKeys(a) && DistinctKeys(b)
    requires forall x, y | x in a && y in b :: x.key != y.key
    ensures DistinctKeys(a + b)
  {
    var s := a + b;
    forall i, j | 0 <= i < j < |s|
      ensures s[i].key != s[j].key
    {
      if i < |a| && j >= |a| {
        assert s[i] == a[i] && a[i] in a;
        assert s[j] == b[j - |a|] && b[j - |a|] in b;
      } else if j < |a| {
        assert s[i] == a[i] && s[j] == a[j];
      } else {
        assert s[i] == b[i - |a|] && s[j] == b[j - |a|];
      }
    }
  }

  /** The nodes from the root down the chain of left children. */
  function LeftSpine(t: Tree): (r: seq<Entry>)
  {
    if t.Nil? then [] else [Entry(t.key, t.value)] + LeftSpine(t.left)
  }

  /**
   With the empty prefix the walk never goes right below a nonempty key, so
   on a tree without the empty key it reports only the left spine.
   */
  lemma {:induction false} EmptyPrefixWalksLeftSpine(t: Tree)
    requires "" !in Keys(t)
    ensures Completions(t, "") == LeftSpine(t)
    decreases t
  {
    if t.Node? {
      assert StartsWith(t.key, "");
      assert !Less(t.key, "") && Less("", t.key);
      EmptyPrefixWalksLeftSpine(t.left);
    }
  }

  /**
   The right subtree is pruned when `prefix < node.key`, even where it holds
   matches: below `"abc"`, the walk for `"ab"` never sees `"abd"`.
   */
  lemma PrefixWalkMissesRightMatch()
    ensures var t := Node(Nil, "abc", "1", Node(Nil, "abd", "2", Nil, 1), 2);
      IsAvl(t) && Entries(t) == map["abc" := "1", "abd" := "2"]
      && Completions(t, "ab") == [Entry("abc", "1")]
  {
    assert Less("abc", "abd");
    assert Less("ab", "abc");
    assert StartsWith("abc", "ab");
    RightChainAvl("abc", "1", "abd", "2");
    PrunedRight("abc", "1", Node(Nil, "abd", "2", Nil, 1), "ab");
  }

  /** A node with one larger child on the right is an AVL tree holding both entries. */
  lemma RightChainAvl(a: string, va: string, b: string, vb: string)
    requires Less(a, b)
    ensures IsAvl(Node(Nil, a, va, Node(Nil, b, vb, Nil, 1), 2))
    ensures Entries(Node(Nil, a, va, Node(Nil, b, vb, Nil, 1), 2)) == map[a := va, b := vb]
  {
    LessIrreflexive(a);
    var r := Node(Nil, b, vb, Nil, 1);
    assert Keys(r) == {b};
    assert Ordered(r) && HeightsCorrect(r) && Balanced(r);
    var t := Node(Nil, a, va, r, 2);
    assert Ordered(t);
    assert HeightsCorrect(t);
    assert Balanced(t);
  }

  /** Below a node whose key starts with and sorts after the prefix, only the left side is searched. */
  lemma PrunedRight(k: string, v: string, right: Tree, prefix: string)
    requires StartsWith(k, prefix) && Less(prefix, k)
    ensures Completions(Node(Nil, k, v, right, Height(right) + 1), prefix) == [Entry(k, v)]
  {
    LessAsymmetric(prefix, k);
  }

  /** A node is reported before its left subtree, so the results need not ascend. */
  lemma PrefixWalkIsPreOrder()
    ensures var t := Node(Node(Nil, "ab", "1", Nil, 1), "abc", "2", Nil, 2);
      IsAvl(t) && Completions(t, "ab") == [Entry("abc", "2"), Entry("ab", "1")]
      && !StrictlyAscending(Completions(t, "ab"))
  {
    assert Less("ab", "abc");
    assert StartsWith("abc", "ab") && StartsWith("ab", "ab");
    LeftChainAvl("ab", "1", "abc", "2");
    NodeBeforeLeft("ab", "1", "abc", "2", "ab");
  }

  /** A node with one smaller child on the left is an AVL tree. */
  lemma LeftChainAvl(a: string, va: string, b: string, vb: string)
    requires Less(a, b)
    ensures IsAvl(Node(Node(Nil, a, va, Nil, 1), b, vb, Nil, 2))
  {
    var l := Node(Nil, a, va, Nil, 1);
    assert Keys(l) == {a};
    assert Ordered(l) && HeightsCorrect(l) && Balanced(l);
    var t := Node(l, b, vb, Nil, 2);
    assert Ordered(t);
    assert HeightsCorrect(t);
    assert Balanced(t);
  }

  /**
   When both keys start with the prefix and only the lower one sorts at or
   before it, the walk reports the upper key first.
   */
  lemma NodeBeforeLeft(a: string, va: string, b: string, vb: string, prefix: string)
    requires Less(a, b) && StartsWith(a, prefix) && StartsWith(b, prefix) && !Less(a, prefix)
    ensures Completions(Node(Node(Nil, a, va, Nil, 1), b, vb, Nil, 2), prefix) == [Entry(b, vb), Entry(a, va)]
    ensures !StrictlyAscending([Entry(b, vb), Entry(a, va)])
  {
    LessAsymmetric(a, b);
    PrefixNotAfter(b, prefix);
    assert Completions(Node(Nil, a, va, Nil, 1), prefix) == [Entry(a, va)];
    var s := [Entry(b, vb), Entry(a, va)];
    assert !Less(s[0].key, s[1].key);
  }
}
