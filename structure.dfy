/**
 `getTreeStructure` (backend/index.js:178-186): the read-only snapshot of
 the tree handed to the renderer, with keys, values and links but no
 heights.
 */
module TreeStructure {
  import opened AvlNode

  /** `null`, or `{ key, value, left, right }`. */
  datatype Shape =
    | Null
    | Object(key: string, value: string, left: Shape, right: Shape)

  /**
   `getTreeStructure(node)`. The snapshot loses nothing but the cached
   heights: on a tree whose heights are correct, rebuilding it from its
   snapshot gives back the same tree.
   */
  function GetTreeStructure(t: Tree): (r: Shape)
    ensures r.Null? <==> t.Nil?
    ensures HeightsCorrect(t) ==> Rebuild(r) == t
  {
    if t.Nil? then Null
    else Object(t.key, t.value, GetTreeStructure(t.left), GetTreeStructure(t.right))
  }

  /** A tree with the given shape whose heights are computed from the links. */
  function Rebuild(s: Shape): (t: Tree)
    ensures HeightsCorrect(t)
  {
    if s.Null? then Nil
    else Fix(Node(Rebuild(s.left), s.key, s.value, Rebuild(s.right), 0))
  }

  /** Every shape is the snapshot of some tree: the one rebuilt from it. */
  lemma {:induction false} RebuildRoundTrip(s: Shape)
    ensures GetTreeStructure(Rebuild(s)) == s
    decreases s
  {
    if s.Object? {
      RebuildRoundTrip(s.left);
      RebuildRoundTrip(s.right);
    }
  }
}
