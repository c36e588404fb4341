/** Rotations and recolouring on the abstract tree: the effect of `left_rotate`,
    `right_rotate` and of writing one node's colour, stated on values. */
module Rotations {
  import opened Trees
  import opened Zippers

  /** Left rotation of a subtree rooted at x: x's right child y takes x's place,
      y's left subtree becomes x's right subtree and x becomes y's left child. */
  function RotateLeft(x: Tree): (r: Tree)
    requires x.Node? && x.right.Node?
    ensures r.Node? && r.id == x.right.id && r.left.Node? && r.left.id == x.id
    ensures Keys(r) == Keys(x) && Ids(r) == Ids(x)
    ensures Distinct(x) ==> Distinct(r)
  {
    var y := x.right;
    assert Keys(x) == Keys(x.left) + [x.key] + (Keys(y.left) + [y.key] + Keys(y.right));
    assert Distinct(x) ==> x.id !in Ids(y) && Distinct(y);
    Node(Node(x.left, x.id, x.key, x.color, y.left), y.id, y.key, y.color, y.right)
  }

  /** Right rotation, the mirror image: y's left child x takes y's place, x's
      right subtree becomes y's left subtree and y becomes x's right child. */
  function RotateRight(y: Tree): (r: Tree)
    requires y.Node? && y.left.Node?
    ensures r.Node? && r.id == y.left.id && r.right.Node? && r.right.id == y.id
    ensures Keys(r) == Keys(y) && Ids(r) == Ids(y)
    ensures Distinct(y) ==> Distinct(r)
  {
    var x := y.left;
    assert Keys(y) == (Keys(x.left) + [x.key] + Keys(x.right)) + [y.key] + Keys(y.right);
    assert Distinct(y) ==> y.id !in Ids(x) && Distinct(x);
    Node(x.left, x.id, x.key, x.color, Node(x.right, y.id, y.key, y.color, y.right))
  }

  /** The tree after rotating left at node `x`, whose right child is a real node. */
  function RotateLeftAt(t: Tree, x: Ref): (r: Tree)
    requires Distinct(t) && x in Ids(t) && RightOf(t, x) != Nil
    ensures Keys(r) == Keys(t) && Ids(r) == Ids(t) && Distinct(r)
  {
    var z := Focus(t, x);
    var s' := RotateLeft(z.sub);
    PlugDistinct(z.path, z.sub);
    ReplaceKeys(z.path, z.sub, s');
    ReplaceDistinct(z.path, z.sub, s');
    Plug(z.path, s')
  }

  /** The tree after rotating right at node `y`, whose left child is a real node. */
  function RotateRightAt(t: Tree, y: Ref): (r: Tree)
    requires Distinct(t) && y in Ids(t) && LeftOf(t, y) != Nil
    ensures Keys(r) == Keys(t) && Ids(r) == Ids(t) && Distinct(r)
  {
    var z := Focus(t, y);
    var s' := RotateRight(z.sub);
    PlugDistinct(z.path, z.sub);
    ReplaceKeys(z.path, z.sub, s');
    ReplaceDistinct(z.path, z.sub, s');
    Plug(z.path, s')
  }

  /** The tree after writing colour `c` into node `x`. */
  function PaintAt(t: Tree, x: Ref, c: Color): (r: Tree)
    requires Distinct(t) && x in Ids(t)
    ensures Keys(r) == Keys(t) && Ids(r) == Ids(t) && Distinct(r)
    ensures ColorAt(r, x) == c
  {
    var z := Focus(t, x);
    var s' := z.sub.(color := c);
    PlugDistinct(z.path, z.sub);
    ReplaceKeys(z.path, z.sub, s');
    ReplaceDistinct(z.path, z.sub, s');
    FocusRoot(z.path, s');
    Plug(z.path, s')
  }

  // The three operations applied at the node at the end of a known path.

  lemma PaintFocused(a: seq<Frame>, s: Tree, c: Color)
    requires Distinct(Plug(a, s)) && s.Node?
    ensures s.id in Ids(Plug(a, s))
    ensures PaintAt(Plug(a, s), s.id, c) == Plug(a, s.(color := c))
  {
    FocusRoot(a, s);
  }

  lemma RotateLeftFocused(a: seq<Frame>, s: Tree)
    requires Distinct(Plug(a, s)) && s.Node? && s.right.Node?
    ensures s.id in Ids(Plug(a, s)) && RightOf(Plug(a, s), s.id) != Nil
    ensures RotateLeftAt(Plug(a, s), s.id) == Plug(a, RotateLeft(s))
  {
    FocusRoot(a, s);
    PlugDistinct(a, s);
    NilNotInIds(s);
  }

  lemma RotateRightFocused(a: seq<Frame>, s: Tree)
    requires Distinct(Plug(a, s)) && s.Node? && s.left.Node?
    ensures s.id in Ids(Plug(a, s)) && LeftOf(Plug(a, s), s.id) != Nil
    ensures RotateRightAt(Plug(a, s), s.id) == Plug(a, RotateRight(s))
  {
    FocusRoot(a, s);
    PlugDistinct(a, s);
    NilNotInIds(s);
  }

  /** Rotating left at x and then right at x's former right child restores the tree. */
  lemma RotateLeftAtInverse(t: Tree, x: Ref)
    requires Distinct(t) && x in Ids(t) && RightOf(t, x) != Nil
    ensures RightOf(t, x) in Ids(RotateLeftAt(t, x))
    ensures LeftOf(RotateLeftAt(t, x), RightOf(t, x)) == x != Nil
    ensures RotateRightAt(RotateLeftAt(t, x), RightOf(t, x)) == t
  {
    var z := Focus(t, x);
    var s' := RotateLeft(z.sub);
    NilNotInIds(t);
    FocusRoot(z.path, s');
    assert RotateRight(s') == z.sub;
  }

  /** Rotating right at y and then left at y's former left child restores the tree. */
  lemma RotateRightAtInverse(t: Tree, y: Ref)
    requires Distinct(t) && y in Ids(t) && LeftOf(t, y) != Nil
    ensures LeftOf(t, y) in Ids(RotateRightAt(t, y))
    ensures RightOf(RotateRightAt(t, y), LeftOf(t, y)) == y != Nil
    ensures RotateLeftAt(RotateRightAt(t, y), LeftOf(t, y)) == t
  {
    var z := Focus(t, y);
    var s' := RotateRight(z.sub);
    NilNotInIds(t);
    FocusRoot(z.path, s');
    assert RotateLeft(s') == z.sub;
  }

  /** Rotations keep binary-search-tree order. */
  lemma RotationsKeepSearchTree(t: Tree, x: Ref)
    requires Distinct(t) && x in Ids(t) && SearchTree(t)
    ensures RightOf(t, x) != Nil ==> SearchTree(RotateLeftAt(t, x))
    ensures LeftOf(t, x) != Nil ==> SearchTree(RotateRightAt(t, x))
  {
    SearchTreeIffIncreasing(t);
    if RightOf(t, x) != Nil {
      SearchTreeIffIncreasing(RotateLeftAt(t, x));
    }
    if LeftOf(t, x) != Nil {
      SearchTreeIffIncreasing(RotateRightAt(t, x));
    }
  }
}
