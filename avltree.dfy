/**
 The `AVLTree` object (backend/index.js:18-152): a mutable `root` that
 `insertPair` and `deleteKey` replace by the root the recursive operations
 return, and the two walks that push into a result list.
 */
module Dictionary {
  import opened KeyOrder
  import opened AvlNode
  import opened AvlInsert
  import opened AvlDelete
  import opened Traversals

  class AVLTree {
    var root: Tree

    /** Between public operations the root is a valid AVL tree. */
    ghost predicate Valid()
      reads this
    {
      IsAvl(root)
    }

    /** `new AVLTree()`: an empty tree. */
    constructor ()
      ensures Valid() && root == Nil && Entries(root) == map[]
    {
      root := Nil;
    }

    /** `insertPair(key, value)`: the dictionary now maps `key` to `value`, all else as before. */
    method InsertPair(key: string, value: string)
      requires Valid()
      modifies this
      ensures Valid()
      ensures root == Insert(old(root), key, value)
      ensures Entries(root) == old(Entries(root))[key := value]
    {
      root := Insert(root, key, value);
    }

    /** `deleteKey(key)`: the dictionary loses `key`; an absent key leaves the tree as it was. */
    method DeleteKey(key: string)
      requires Valid()
      modifies this
      ensures Valid()
      ensures root == Delete(old(root), key)
      ensures Entries(root) == old(Entries(root)) - {key}
      ensures key !in old(Keys(root)) ==> root == old(root)
    {
      if key !in Keys(root) {
        DeleteAbsentUnchanged(root, key);
      }
      root := Delete(root, key);
    }

    /** `autocomplete(node, prefix, result)`: pushes the pruned walk's matches onto `result`. */
    method Autocomplete(node: Tree, prefix: string, result: seq<Entry>) returns (out: seq<Entry>)
      ensures out == result + Completions(node, prefix)
      decreases node
    {
      out := result;
      if node.Nil? {
        assert result + Completions(node, prefix) == result;
        return;
      }
      ghost var here := if StartsWith(node.key, prefix) then [Entry(node.key, node.value)] else [];
      ghost var left := if !Less(node.key, prefix) then Completions(node.left, prefix) else [];
      ghost var right := if !Less(prefix, node.key) then Completions(node.right, prefix) else [];
      assert Completions(node, prefix) == here + left + right;
      if StartsWith(node.key, prefix) {
        out := out + [Entry(node.key, node.value)];
      }
      assert out == result + here;
      if !Less(node.key, prefix) {
        out := Autocomplete(node.left, prefix, out);
      }
      assert out == result + here + left;
      if !Less(prefix, node.key) {
        out := Autocomplete(node.right, prefix, out);
      }
      assert out == result + here + left + right;
      AppendAssociative(result, here, left, right);
    }

    /**
     `searchPrefix(prefix)`: every entry reported is stored with that value
     and starts with the prefix, and none is reported twice.
     */
    method SearchPrefix(prefix: string) returns (result: seq<Entry>)
      requires Valid()
      ensures result == Completions(root, prefix)
      ensures forall e | e in result ::
        StartsWith(e.key, prefix) && e.key in Entries(root) && Entries(root)[e.key] == e.value
      ensures DistinctKeys(result)
    {
      result := Autocomplete(root, prefix, []);
      CompletionsSound(root, prefix);
    }

    /** `inorder(node, result)`: pushes the subtree's entries onto `result`, left to right. */
    method Inorder(node: Tree, result: seq<Entry>) returns (out: seq<Entry>)
      ensures out == result + InOrder(node)
      decreases node
    {
      if node.Nil? {
        return result;
      }
      out := Inorder(node.left, result);
      out := out + [Entry(node.key, node.value)];
      out := Inorder(node.right, out);
    }
  }

  /**
   Regrouping four appended pieces, proved apart from `Autocomplete`, whose
   own context makes the same sequence identity expensive to check.
   */
  lemma AppendAssociative(a: seq<Entry>, b: seq<Entry>, c: seq<Entry>, d: seq<Entry>)
    ensures a + b + c + d == a + (b + c + d)
  {
  }
}
